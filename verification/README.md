# Proofs about the CSV-to-PostgreSQL platform

A Dafny 4.11 model of the platform's stateful services and of its CSV dialect.
`dafny verify dfyconfig.toml` checks everything. Paths below are relative to the
repository's root.

| file | models |
|---|---|
| `AuditChain.dfy` | the append-only, hash-chained audit log: trigger, lock, backfill, chain check |
| `Registry.dfy`, `Server.dfy` | the upload registry and its tables; each request as one transaction |
| `RegistryRace.dfy`, `RaceSerial.dfy` | dynamic uploads that interleave statement by statement, and why they end as if run one by one |
| `RowLoading.dfy`, `RowKeys.dfy` | the cast loop of a dynamic upload, its row key, its relation to the preview |
| `TeLoading.dfy` | loading a T&E table: chunks, savepoints, per-row fallback |
| `LoadedRows.dfy` | the rows and values that a load leaves in its table |
| `CsvText.dfy` | the CSV parser, the preview of a cut file, the export's printer |
| `Sanitize.dfy`, `HeaderNames.dfy` | header names: the two loops, and which name a header gets |
| `Cast.dfy`, `CellValues.dfy` | type inference and casting, and what a cell means |
| `RateLimit.dfy` | the sliding-window limiter |
| `Accounts.dfy`, `Overlaps.dfy` | the login lockout, for sign-ins one at a time and for sign-ins that overlap |
| `Review.dfy` | decisions and edits over a stored upload |
| `Originals.dfy` | what an upload leaves for review, and how far review agrees with the loader |
| `Common.dfy` | `Option` and `Filter` |

Where the program updates something in place, there is a class or a method with the
program's own loops, and its `ensures` ties it to a function; the lemmas are about that
function. Runs are sequences of requests or of interleaved statements, of any length.

Assumptions, each a parameter or a `requires`:

- SHA-256 is a function. It is never assumed to be free of collisions: results say "or these
  two texts collide". The JSON text of an audit row is an injective function of the row.
- Trimming, lower-casing, the calendar (`strptime`, `fromisoformat`), a database's own row
  rules, and whether a password is right are parameters.
- A connection that goes back to the pool without a commit is rolled back.
- Content hashes in a run do not share the 16-character prefix that names a table
  (`Registry.LoadKeepsInvExactly` shows that this is what the registry needs).
- A batch INSERT succeeds exactly when its rows would be accepted one after the other.
- Clocks do not go back.
- Review requests come one at a time, and so do the requests of `Registry.dfy`; sign-ins and
  password changes of one account come one at a time in `Accounts.dfy` and overlap in
  `Overlaps.dfy`.
- Python and JavaScript trim and lower-case differently in places (U+001F before `_id`, for one):
  `Sanitize.VersionsAgree` is about headers to which both give the same stems.

## What does not hold

- The loader joins the cells of a row with U+001F. A row of two or more cells, one of which
  contains that character, always has another row of the same width with the same key, so
  different rows can be skipped as duplicates (`RowKeys.KeyTextIdentifiesRow`,
  `RowKeys.DifferentRowsMerge`).
- `sanitizeColumns` in the browser is described as a mirror of the server's version. The two
  agree exactly when no header's stem looks like a repeated stem with a number
  (`Sanitize.VersionsAgree`); for the headers a, a, a_2 they differ (`Sanitize.VersionsDiffer`).
- A preview cut inside the first line shows part of a row. The rows shown of a truncated file
  are rows of the file, however it goes on, exactly when the text read has no row, more than
  one, or a complete line (`CsvText.ShownAreRowsExactly`).
- Sign-ins that overlap all read the lock before any is counted, so there is no bound in N
  alone (`Overlaps.OverlapBeatsTheLimit`); `Overlaps.FewGuessesAtATime` has the bound in N and
  the number of attempts open at a time.
- Review does not know the types of a T&E table: it and the loader's check agree about an
  unedited row exactly when the row has cells beyond the header or all its cells cast
  (`Originals.TeReviewAgreesExactly`, with a failing file in `Originals.FailedTeRowLooksClean`).
  Rows that only the database refused look clean too (`Originals.RefusedRowLooksClean`);
  `Originals.TeReviewTellsImportsExactly` has the condition for the whole load.
- The `Retry-After` header rounds with `int(x + 0.999)`, so it can be up to a thousandth of a
  second short: a client that waits as told is let in exactly when the header covers the wait
  (`RateLimit.WaitingAsToldSuffices`), and one that is refused again is in `RateLimit.HeaderMayBeShort`.
- Cutting rows off the end of the audit log is not seen by `verify_chain`
  (`AuditChain.RemovalIsReported`).
- The export's formula guard maps a cell and the same cell with the quote typed in to one text
  (`CsvText.GuardIsSafeAndAlmostInjective`).
- A database error in a T&E load carries the row's position among the rows that passed the
  loader's check, which is its number in the file only if no earlier row failed
  (`TeLoading.ReportedNumberIsFileNumber`, with a file in `TeLoading.NumberCanBeWrong`).

## Model

| member | source | states |
|---|---|---|
| AuditChain.HashInputSplits | alembic/versions/0006_append_only_audit.py:49-58 | the hashed text can be taken apart: equal texts mean equal previous hash and equal row |
| AuditChain.ReportNamesFirstBrokenRow | api/services/audit.py:84-96 | the report is clean exactly for an intact log and otherwise names exactly the first broken row |
| AuditChain.LastHashPinsTheLog | api/services/audit.py:84-96 | two intact logs of any lengths that end in the same hash are equal row for row, or two hashed texts collide |
| AuditChain.ContentChangeIsReported | api/services/audit.py:84-96 | a row changed without rehashing is reported at exactly that row, unless old and new text collide, and then not at all |
| AuditChain.RemovalIsReported | api/services/audit.py:84-96 | removing a run of rows is reported at the row after the gap; only a cut at the end, or a collision, is not seen |
| AuditChain.EveryRunIsIntact | alembic/versions/0006_append_only_audit.py:70-80 | for every interleaving of inserts, failed inserts, commits and aborts: ids increase, every row links to the one before, the report is clean, committed rows stay |
| AuditChain.IdsAreDrawnOnce | alembic/versions/0006_append_only_audit.py:71-80 | every insert that does not wait draws one id, whatever becomes of it; none is given back |
| AuditChain.RunTellsTheLedger | alembic/versions/0006_append_only_audit.py:70-80 | the interleaved log publishes exactly what a one-writer-at-a-time list does: all of a committed transaction, nothing of an aborted one |
| AuditChain.Backfill | alembic/versions/0006_append_only_audit.py:60-69 | the upgrade's loop makes any table of old rows an intact chain and changes nothing but tenant, link and hash |
| AuditChain.BackfilledLogStartsARun | alembic/versions/0006_append_only_audit.py:59-80 | the run result also holds when the log starts from backfilled rows |
| AuditChain.AuditTable.InsertRow | alembic/versions/0006_append_only_audit.py:71-80 | the trigger step by step: lock or wait, draw an id, link to the newest visible row, hash |
| AuditChain.AuditTable.Finish | alembic/versions/0006_append_only_audit.py:73-74 | commit publishes the transaction's rows, abort drops them, either releases the lock; the sequence is not rolled back |
| CsvText.ParseCsv | api/services/csv_parse.py:70-119 | the loop with one character of lookahead computes what a machine without lookahead computes |
| CsvText.ParseSpelled | api/services/csv_parse.py:70-119 | however rows are spelled, in loose and quoted pieces, with carriage returns and either line end: a text says its rows, where carriage returns outside quotes say nothing |
| CsvText.CrIsDropped | api/services/csv_parse.py:102-104 | without quotes, a text and the text without its carriage returns have the same rows |
| CsvText.BomIsDropped | api/services/csv_parse.py:76 | a byte order mark in front is not part of the file |
| CsvText.UnclosedQuote | api/services/csv_parse.py:79-112 | a quote that is never closed ends with the text |
| CsvText.ParsedRowsHaveCells | api/services/csv_parse.py:105-119 | every parsed row has at least one cell |
| CsvText.CutKeepsRows | csv-table-hub-main/src/lib/csv-preview.ts:15-40 | wherever a text is cut, the rows of the cut text without the last are rows of the whole text, and the last is too if its line had ended |
| CsvText.PreviewRows | csv-table-hub-main/src/lib/csv-preview.ts:111-116 | what is shown of a cut file: its parsed rows without the last, unless it is the only one; never more rows than the file has |
| CsvText.ShownAreRowsExactly | csv-table-hub-main/src/lib/csv-preview.ts:114-116 | exactly when the rows shown of a truncated file are its first rows, however it goes on |
| CsvText.ParsePrint | csv-table-hub-main/src/lib/export.ts:49-61 | parsing printed rows gives back all cells, guarded, for any commas, quotes, CR and LF; only blank rows at the end are lost |
| CsvText.ExportRoundTrip | csv-table-hub-main/src/lib/export.ts:55-61 | a report with plain headers, read back by the server's parser, is the header and the guarded records |
| CsvText.ExportedCellsReadBack | csv-table-hub-main/src/lib/export.ts:55-61 | every cell read back is the record's own value under its header, guarded |
| CsvText.ReportsRoundTrip | csv-table-hub-main/src/lib/export.ts:153-174 | the error and the audit report, read back by the server's parser, are their header and their guarded records; all of them if each names its file |
| CsvText.ErrorHeadersArePlain | csv-table-hub-main/src/lib/export.ts:153-161 | the error report's headers need neither quotes nor guard |
| CsvText.AuditHeadersArePlain | csv-table-hub-main/src/lib/export.ts:163-174 | the audit report's headers need neither quotes nor guard |
| CsvText.GuardIsSafeAndAlmostInjective | csv-table-hub-main/src/lib/export.ts:43-53 | no printed cell starts like a formula unless it is a plain number; exactly which two cells become the same text |
| CellValues.GuardExactly | csv-table-hub-main/src/lib/export.ts:43-53 | a cell gets a quote in front exactly if it starts with one of six characters and is no number |
| Sanitize.Stem | api/services/csv_parse.py:136-150 | every stem has 1 to 55 word characters and starts with a letter |
| HeaderNames.CollapseJoinsWords | api/services/csv_parse.py:137 | cleaning joins the words of a header by single underscores |
| HeaderNames.StemIs | api/services/csv_parse.py:136-150 | a stem is the words joined, without underscores at the ends, with the rules for reserved, empty, numeric and long names |
| HeaderNames.NamedOnce | api/services/csv_parse.py:136-150 | every header has exactly one such name |
| HeaderNames.ColumnsAreNamed | api/services/csv_parse.py:122-157 | if the names of all headers differ, they are the columns |
| HeaderNames.ReservedNames | api/services/csv_parse.py:142-144 | what the three system names become |
| HeaderNames.FirstNameIsFirstName | api/services/csv_parse.py:137 | a header of two words becomes one name |
| Sanitize.TakenFit | api/services/csv_parse.py:151-154 | only as many candidates of a stem can be taken as there are names: why the search ends |
| Sanitize.TakeName | api/services/csv_parse.py:151-154 | the inner loop ends and finds the first free candidate, for any counters that are true of the names in use |
| Sanitize.Sanitize | api/services/csv_parse.py:122-157 | the loop gives each stem in turn its first free candidate |
| Sanitize.SanitizeAndCount | api/services/csv_parse.py:146-157 | the names and the per-stem counters the loop ends with |
| Sanitize.SuffixesAreSmall | api/services/csv_parse.py:151-156 | a suffix never exceeds the number of columns so far |
| Sanitize.SanitizedNames | api/services/csv_parse.py:122-157 | names are pairwise distinct and never reserved, and valid identifiers for up to 9,999,999 columns |
| Sanitize.LimitIsSharp | api/services/csv_parse.py:149-156 | ten million copies of a header with a full-length stem give a name that is too long |
| Sanitize.BrowserSanitize | csv-table-hub-main/src/lib/csv-preview.ts:42-64 | the browser numbers each name by how often its stem came before, which its map counts |
| Sanitize.VersionsAgree | csv-table-hub-main/src/lib/csv-preview.ts:42-64 | browser and server give the same names exactly when no header's stem looks like a repeated stem with a number its repeats get |
| Sanitize.ServerIsOneBehind | api/services/csv_parse.py:146-157 | while the versions agree, the server's counter of each stem is one behind the browser's count |
| Sanitize.VersionsDiffer | csv-table-hub-main/src/lib/csv-preview.ts:57-62 | headers for which the browser shows one name twice and the server does not |
| Cast.CastIsTest | api/services/csv_parse.py:217-249 | casting to a type accepts exactly the blank cells and those that pass the type's inference test |
| CellValues.CastFindsMeaning | api/services/csv_parse.py:217-249 | a cell casts to a value exactly if that is what its text means: the number its digits denote, one of the ten truth words, and so on |
| CellValues.CastRefuses | api/services/csv_parse.py:217-249 | it is refused exactly if it means nothing, with the reason for its type |
| CellValues.IntIsDenoted | api/services/csv_parse.py:222-225 | the test and the conversion for whole numbers: an optional minus, zeros, and the decimal numeral |
| Cast.InferredTypeIsFirstThatCasts | api/services/csv_parse.py:179-198 | the inferred type is the first, in the order tried, to which every sampled value casts, and text if all are blank |
| RowLoading.CastRow | api/services/dynamic_loader.py:274-303 | one turn of the cast loop finds the row's failure (cells beyond the header first, then the first cell that does not cast) or its values and key |
| RowLoading.CastRows | api/services/dynamic_loader.py:266-314 | the cast loop keeps, counts and reports what the pass over all rows does, with the reported errors capped and the counts not |
| LoadedRows.PassedRowMeans | api/services/dynamic_loader.py:274-313 | a row passes exactly if it has nothing beyond the header and every cell means something in its column; then its values are those meanings and its key that of its cells |
| LoadedRows.FailedRowTells | api/services/dynamic_loader.py:279-303 | the error of a refused row: which cell, its value and the reason |
| RowLoading.PassKeepsFirsts | api/services/dynamic_loader.py:268-314 | the rows kept are exactly the first of each key, in file order; every row is kept, failed or duplicate; one is kept if any passes |
| RowLoading.FirstsAreKept | api/services/dynamic_loader.py:304-313 | a data row is imported exactly if it is the first passing row of its key |
| RowLoading.PassReportsFailures | api/services/dynamic_loader.py:279-303 | the errors are those of the failing rows, one each, in file order |
| RowKeys.KeyTextIdentifiesRow | api/services/dynamic_loader.py:304-309 | the joined text is that of another row of the width exactly if the row has two or more cells and one contains the separator |
| RowKeys.DifferentRowsMerge | api/services/dynamic_loader.py:304-312 | to every row of two or more cells with a separator inside there is a different row that is skipped as its duplicate |
| RowKeys.RepeatsAreEqualRows | api/services/dynamic_loader.py:304-313 | in a file without the separator, a row counts as a repeat exactly if an earlier imported row equals it after padding (no SHA-256 collision among its rows) |
| RowKeys.SampledRowsCast | api/services/csv_parse.py:267-270 | with the inferred types a sampled row fails exactly if it has cells beyond the header |
| RowKeys.PreviewLooksAt200 | api/services/csv_parse.py:267-270 | the preview infers a column's type from the cells of the first 200 rows |
| TeLoading.Transaction.RollbackTo | api/services/te_loader.py:271 | going back to a savepoint restores its table, revives the transaction and keeps the savepoint |
| TeLoading.Transaction.ExecuteValues | api/services/te_loader.py:267 | a batch sent page by page is in as a whole, or the transaction is aborted |
| TeLoading.TryRow | api/services/te_loader.py:279-292 | one row under a savepoint is in or nothing has changed, and the transaction is usable either way |
| TeLoading.InsertInChunks | api/services/te_loader.py:262-292 | for any chunk and page size: same table, counts and errors as inserting row by row; no savepoint left, transaction usable |
| TeLoading.OneByOneCounts | api/services/te_loader.py:273-290 | inserting row by row accounts for every row and only appends to the table |
| TeLoading.LoadRows | api/services/te_loader.py:217-292 | the whole load is the simple form: check the rows, insert those that pass; totalRows = insertedRows + failedRows |
| LoadedRows.TeRowPasses | api/services/te_loader.py:217-247 | the check passes a T&E row with the values its cells mean, and no other row |
| LoadedRows.TeFailedRowTells | api/services/te_loader.py:226-245 | the error of a T&E row the check refuses |
| LoadedRows.TeTableFills | api/services/te_loader.py:262-323 | a loaded file's rows are in the committed T&E table behind the old ones, in file order, with the values of their cells, except those that mean nothing or that the database refused; other T&E tables are as they were |
| LoadedRows.TeLoadedExactly | api/services/te_loader.py:119-183 | exactly when a T&E load is answered with success, and with which reason it is turned away |
| TeLoading.ReportedNumberIsFileNumber | api/services/te_loader.py:274-290 | a load reports a database error exactly for each row that passed the check and was refused, under its number among the rows that passed; exactly when that is its number in the file |
| TeLoading.NumberCanBeWrong | api/services/te_loader.py:274-290 | a file whose second row is reported as row 1 |
| Registry.ClearEarlierClears | api/services/dynamic_loader.py:149-220 | an upload is turned away exactly if a file has its name or content and it may not overwrite; otherwise nothing of either is left |
| Registry.TableIsFresh | api/services/dynamic_loader.py:251-264 | once no file has the content, its table does not exist |
| Registry.FreshInsertTakesAll | api/services/dynamic_loader.py:337-355 | on a fresh table ON CONFLICT never fires |
| Registry.LoadKeepsInvExactly | api/services/dynamic_loader.py:252-264 | a committed load keeps the registry in order exactly if no other dynamic file's table has the same name |
| Registry.HeaderRefusedOnlyForTypes | api/services/dynamic_loader.py:222-249 | for a parsed header the guards against empty, duplicate and invalid names cannot fire; only the types can be refused |
| Registry.DuplicateExactly | api/services/dynamic_loader.py:159-207 | exactly when a well-shaped upload is answered with duplicate_file: the unique indexes are never what refuses a serial upload |
| Registry.DuplicateNames | api/services/dynamic_loader.py:149-207 | the file a duplicate is told of: the one of its name, or else that of its content |
| Registry.ShapeTells | api/services/dynamic_loader.py:66-105 | which files are well shaped, and what the others are answered |
| Registry.TableNames | api/services/dynamic_loader.py:252 | a table is named by the first 16 characters of the hash, and two contents share one exactly if these are equal |
| Registry.LoadedTableHoldsFirsts | api/services/dynamic_loader.py:266-411 | an accepted upload's table holds exactly the first row of each key in file order; totals add up; at least one row inserted |
| LoadedRows.LoadedTableHoldsValues | api/services/dynamic_loader.py:266-394 | the committed table holds exactly the first loadable row of each key, in file order, each cell with the value its text means |
| Registry.LoadedExactly | api/services/dynamic_loader.py:222-326 | a well-shaped upload that is no duplicate is loaded exactly if its header is accepted, the database does not fail and one of its rows passes |
| Registry.PreviewedUploadCasts | api/services/csv_parse.py:267-270 | uploaded with the types of its preview, a file's header is accepted and of the previewed rows exactly those with cells beyond the header fail |
| Registry.PreviewedFileLoads | api/services/dynamic_loader.py:274-326 | such a file of at most 200 data rows is loaded exactly if one of them has no cells beyond the header |
| Registry.ReportsExactly | api/services/dynamic_loader.py:323-411 | exactly when the answer to an upload names the columns and types its rows were judged by |
| Registry.StepKeepsInv | api/services/dynamic_loader.py:146-394 | one request keeps names and hashes unique, tables equal to those named by dynamic rows, row counts equal to table sizes; anything but a commit changes nothing |
| Registry.DoTeKeepsInv | api/services/te_loader.py:294-323 | a T&E load that meets no error always registers, and its totals add up |
| Registry.RemoveKeepsInv | api/services/te_loader.py:87-112 | removing registry rows with the tables they name keeps the registry in order |
| Registry.EveryRunKeepsInv | api/services/dynamic_loader.py:146-394 | the invariant over every run of uploads, T&E loads and deletions with every outcome |
| Registry.EveryRunFromFreshKeepsInv | api/services/dynamic_loader.py:146-394 | the empty registry with its T&E tables satisfies the invariant, and so does every state a run reaches from it |
| Registry.EveryRunSparesTe | api/services/te_loader.py:96-106 | over every run no T&E table is dropped or loses a row |
| Registry.OthersAreKept | api/services/dynamic_loader.py:146-394 | a request leaves every file it is not about registered, and its table with the same rows |
| Registry.LoadRegisters | api/services/dynamic_loader.py:363-394 | a committed load registers a new file under the request's name, content hash and table, with all its counts |
| Registry.DeletionDeletes | api/routers/csv_routes.py:218-265 | what a deletion is answered: forbidden, not found, or deleted; then the file and its own table are gone |
| Server.InsertAll | api/services/dynamic_loader.py:337-354 | inserting in chunks of 500 and counting returned rows equals inserting row by row, and the count is exact |
| Server.CheckHeader | api/services/dynamic_loader.py:222-249 | sanitising, the three guards and the type checks, in their order |
| Server.CheckTeHeader | api/services/te_loader.py:153-207 | the loop over the columns finds the T&E header: every column must be one of the table, and its type is looked up there |
| Server.Transactions.Upload | api/services/dynamic_loader.py:52-411 | a dynamic upload with all early returns and rollbacks does what the request's step says; the answer names columns and types, and the capped errors of the pass, even if every row failed |
| Server.Transactions.LoadTe | api/services/te_loader.py:115-338 | a T&E load does what the request's step says, and answers with the columns and the capped errors of the load |
| Server.Transactions.Delete | api/routers/csv_routes.py:218-265 | a deletion does what the request's step says |
| RegistryRace.EveryRaceKeepsInv | api/services/dynamic_loader.py:357-394 | in every interleaving of check, create, insert, register, commit and failure, over a registry with dynamic and T&E rows, every committed state is in order and only grows |
| RegistryRace.RaceIsSettled | api/services/dynamic_loader.py:107-123 | a winner is registered and its table holds its rows; anyone else registered nothing; a duplicate answer means a committed file has the name or content, a refusal that the columns are not accepted or no row passes; without a database error every finished upload has won or has one of these answers |
| RegistryRace.OneWinnerForAKey | alembic/versions/0002_registry_unique.py:46-47 | of two uploads with the same name or content at most one commits |
| RegistryRace.SomeUploadGoesOn | alembic/versions/0002_registry_unique.py:46-47 | uploads that wait for each other's table, or for an entry in one unique index while holding one in the other, never deadlock |
| RaceSerial.EveryStartIsReady | api/services/dynamic_loader.py:145-160 | a race can start from every registry that is in order, for contents that share no table prefix |
| RaceSerial.EveryRaceIsSerial | api/services/dynamic_loader.py:107-123 | every race commits the files and tables that its winners reach one after the other, in the order of their commits |
| RaceSerial.LosersAreDuplicates | api/services/dynamic_loader.py:370-394 | run after the winners, an upload that the race told of a duplicate is told so again |
| RaceSerial.RefusedNeverLoads | api/services/dynamic_loader.py:222-333 | an upload refused for its columns or because no row passes loads nothing, whatever is registered |
| RateLimit.CheckKeepsBound | api/ratelimit.py:60-75 | after every check at most 4096 buckets remain and the key checked is the newest |
| RateLimit.TracksNewestKeys | api/ratelimit.py:64-74 | eviction is least recently checked first: exactly the 4096 keys checked last are tracked |
| RateLimit.AllowedExactly | api/ratelimit.py:47-75 | a request is allowed exactly if fewer than the budget of the key's earlier allowed requests lie in the last window |
| RateLimit.NoWindowOverBudget | api/ratelimit.py:65-71 | no stretch as long as the window holds more allowed requests than the budget |
| RateLimit.RetryAfterIsExact | api/ratelimit.py:67-70 | after a refusal a check is allowed exactly from the announced moment on, which is never now |
| RateLimit.NoBudgetNoLimit | api/ratelimit.py:52-55 | a budget of zero or less is no limit: always allowed, never tracked |
| RateLimit.HeaderCoversWait | api/ratelimit.py:119-122 | exactly when the header's whole seconds cover the wait |
| RateLimit.WaitingAsToldSuffices | api/ratelimit.py:119-122 | a refused client that waits the seconds of the header is let in exactly when they cover the wait |
| RateLimit.HeaderMayBeShort | api/ratelimit.py:119-122 | a run in which a client waits as told and is refused again |
| RateLimit.SlidingWindowLimiter.CheckRequest | api/ratelimit.py:47-75 | the loops over deque and map compute the check's answer and new state |
| RateLimit.SlidingWindowLimiter.Reset | api/ratelimit.py:77-80 | forgets every client: what follows are the runs of a new limiter |
| Accounts.RunKeepsInv | api/services/accounts.py:120-132 | over every run the count is open with its window, and a count at the limit belongs to an account locked until the window is over |
| Accounts.UnlockedHasRoom | api/services/accounts.py:120-132 | an unlocked account has fewer than N counted failures or an expired counting window |
| Accounts.FewGuessesInAnySpan | api/services/accounts.py:84-91 | sign-ins one at a time: in any span as long as the lockout without success or reset, at most max(N, 2N-2) wrong passwords are judged on an unlocked account |
| Accounts.BoundIsReached | api/services/accounts.py:120-132 | for every N of 2 or more the bound is reached |
| Accounts.LimitLocks | api/services/accounts.py:120-132 | from any state: wrong passwords within the counting window are all counted; the one that reaches the limit, and each after it, locks for the full time |
| Accounts.LockHolds | api/services/accounts.py:76-91 | while the lock lasts no password signs in; from its end on a right one of an eligible user does, and clears the account |
| Accounts.PasswordChangeIsNotLocked | api/services/accounts.py:167-177 | a right current password works and unlocks even while locked; a wrong one counts like a wrong sign-in |
| Overlaps.AloneIsSerial | api/services/accounts.py:76-91 | an attempt that nothing overlaps, read and record together, is one step of the serial model |
| Overlaps.FewGuessesAtATime | api/services/accounts.py:76-91 | attempts that overlap, at most k open at a time: at most max(N, 2N-2) + k - 1 wrong passwords are judged in such a span, and that many again for each older attempt that is open at its start with a wrong password |
| Overlaps.OverlapBeatsTheLimit | api/services/accounts.py:76-86 | any number of wrong passwords that begin together are all judged |
| Accounts.Account.Login | api/services/accounts.py:69-91 | one sign-in at a time: wrong passwords are counted even while locked; a session only for a right password of an eligible, unlocked user |
| Accounts.Account.CountFailure | api/services/accounts.py:120-132 | the two updates of the counter, its window and the lock |
| Accounts.Account.ChangeOwnPassword | api/services/accounts.py:167-177 | a wrong current password counts; a right one clears the lockout and ends all sessions but the one used |
| Review.EveryRunIsLinkedAndAudited | api/services/review.py:129-167 | over every run each edit's old value is the cell's value before it and differs from the new one; the audit log tells each change once, with before and after |
| Review.LatestWinsIsReplay | api/services/review.py:60-74 | latest-wins lookup equals replaying all edits from the original |
| Review.UndoRestoresOriginal | api/services/review.py:156-166 | putting old values back, newest edit first, restores the row as uploaded |
| Review.ViewTells | api/services/review.py:48-57 | after any history a row's problems are: cells beyond the header, then one for each column whose cell, as it is now, means nothing in its type, with value and reason |
| Review.EditedCellTells | api/services/review.py:91-100 | after an accepted edit its cell is a problem exactly if the new value means nothing in the column's type; every other cell as before |
| Review.UntouchedRow | api/services/review.py:85-100 | a row nobody touched is included, without a reason, and shows its original cells |
| Review.AcceptedExactly | api/services/review.py:118-166 | which requests are accepted, and which are 404 or 422 |
| Review.AcceptedIsRecorded | api/services/review.py:129-166 | an accepted request is recorded once, with what it asked for, the trimmed reason, the actor and what the row showed before; and so it is audited |
| Review.EveryRunHasReasons | api/services/review.py:123-126 | every decision and edit of a run has a reason |
| Review.DecisionShows | api/services/review.py:129-144 | an accepted decision shows in its row as the verdict and reason given, and changes nothing else there |
| Review.EditShows | api/services/review.py:147-167 | an accepted edit gives its cell the new value and marks it; every other cell, the original and the verdict stay |
| Review.OtherRowsStay | api/services/review.py:60-74 | a request changes nothing in any other row's view |
| Review.PagesCoverAllRows | api/services/review.py:105-115 | reading all pages of any requested size gives every row once, in order |
| Review.PageHolds | api/services/review.py:103-113 | how many rows a page has: one to 500 as asked, as far as there are any |
| Review.PageRowIs | api/services/review.py:76-84 | which row each of them is |
| Review.TotalsMatchPages | api/services/review.py:105-115 | excludedRows and editedRows are the counts obtained by reading every page |
| Review.UneditedRowProblems | api/services/review.py:48-57 | an unedited row has the problems the loader's row check finds under review's header, the first one the same |
| Originals.UploadService.UploadDynamicFile | api/routers/csv_routes.py:73-88 | a dynamic upload, and the attempt stored under an unused id whatever its outcome, with all earlier ones as they were |
| Originals.UploadService.UploadTeFile | api/routers/csv_routes.py:73-88 | a T&E upload, and the attempt stored under an unused id whatever its outcome, with all earlier ones as they were |
| Originals.UploadService.RecordUpload | api/services/originals.py:39-68 | the file, its hash, its rows as parsed, the outcome with its counts and errors, and the columns and types the answer named, under an unused id; nothing if storing fails |
| Originals.OriginalsAreKept | api/services/originals.py:3-6 | over every run of uploads, overwrites, T&E loads and deletions no stored original is lost or changed |
| Originals.AttemptsAreStored | api/services/originals.py:3-6 | each attempt of a run is there at its end, under an id of its own, as it was answered |
| Originals.AttemptTells | api/services/originals.py:39-68 | what is stored of any attempt: the file as sent, its hash and name, its rows, the kind of outcome, and the registered file it became |
| Originals.CountsTell | api/services/originals.py:47-58 | the stored counts and errors: all data rows, those that cannot be loaded, those inserted, and the first failures up to the cap |
| Originals.StoringLeavesRegistry | api/services/originals.py:8-10 | the registry of such a run is that of its requests alone |
| Originals.ImportedMeansAllPass | api/services/originals.py:32-36 | a loaded file is "imported", not "partly_imported", exactly if every row passed the loader |
| Originals.StoredForReview | api/services/originals.py:47-66 | what is stored of an attempt is what review reads |
| Originals.ReviewUsesLoaderHeader | api/services/originals.py:59-63 | review reads the columns and types the loader judged the rows by |
| Originals.ReviewAgreesWithLoader | api/services/review.py:48-57 | for a dynamic upload whose rows were judged, an unedited row has review errors exactly if the loader failed it; the first is the loader's, with row number, column, value and reason |
| Originals.UntypedReview | api/services/review.py:42-45 | without stored types the only problem review finds is cells beyond the header |
| Originals.TeReviewAgreesExactly | api/services/te_loader.py:217-254 | exactly when review and the check of a T&E load agree about an unedited row |
| Originals.TeReviewTellsImportsExactly | api/services/te_loader.py:217-292 | exactly when review and the whole of a T&E load, check and database, agree about an unedited row |
| Originals.FailedTeRowLooksClean | api/services/te_loader.py:237-254 | a T&E load whose failed row review shows without a problem |
| Originals.RefusedRowLooksClean | api/services/te_loader.py:281-290 | a row that only the database refused has no review errors |
| Review.ColumnsResolve | api/services/review.py:151-154 | every sanitised column name and every decimal index resolves to its own column |
| Review.ReviewTables.DecideRow | api/services/review.py:129-144 | a decision with its checks: what is appended, or the status it is refused with |
| Review.ReviewTables.EditCell | api/services/review.py:147-167 | an edit with its checks: what is appended, or the status it is refused with |

## Left out

- Concurrent overwrites, deletions and T&E registry clean-up: taken one after the other, since the code holds no lock between their read and their write.
- Savepoints around audit inserts, which would release the advisory lock early; no caller uses them.
- Registry.StepKeepsInv: a failed request may burn sequence ids; the id counter is taken as unchanged.
- Registry.LoadKeepsInvExactly: the columns of a table are not modelled, so an insert that the database would refuse for its columns is one of the errors.
- RegistryRace.EveryRaceKeepsInv: rows that losers try to insert into a winner's table do not wait for each other; they are never committed.
- Cast.CastIsTest: `\d` is taken as ASCII digits, and integers are unbounded.
- CsvText.CutKeepsRows: a file is cut between characters; a cut inside a UTF-8 sequence is not modelled.
- Server.CheckHeader: which of the checks refused a header, and the message, is not told apart.
- Server.Transactions.Delete: the audit row it writes in the same transaction is not part of the registry's state.
- Originals.UploadService.RecordUpload: the uploader, the byte size, the step log and the time are not stored.
- Overlaps.FewGuessesAtATime: an attempt whose transaction fails, and so is not counted, is not modelled.
- Review.ColumnsResolve: `isdigit` is taken as ASCII digits.
- The browser's own type inference: it rests on the JavaScript `Date`, which is not part of this model.
- `build_preview` beyond its rows and inferred types, `history`, `list_files` and the other read-only endpoints.
- The audit rows that uploads and deletions write.
- Sign-in through an identity provider, tokens, roles, and which tenant a user belongs to: an event says whether the user is eligible.
- Password hashing, HTTP wiring, logging, step logs and messages, exports to XLSX and PDF.
- The text of database errors, and self-referencing or deferred constraints in T&E tables.
