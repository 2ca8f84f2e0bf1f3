# DuckBrain: verified core

DuckBrain keeps its memories in append-only JSONL files and puts fast paths, file rewriters and
small state machines around them. This project models seven of those parts and proves that each
clever form agrees with a simple one, or that an invariant survives every run. Where a promise
turned out not to hold of the code, the exact condition under which it holds is proved instead.

| file | part |
|---|---|
| `MemoryRows.dfy`, `ListQueries.dfy` | listing queries: the fused statement, the bounded read with refill, totals, paging |
| `MemoryLog.dfy` | one partition's append-only log, replay, tombstones |
| `EditDistance.dfy` | the rolling edit-distance table behind the operator hint |
| `TableGlob.dfy` | which files a declared table's glob resolves, and the file an append derives from it |
| `TableStore.dfy` | declared tables: append, PATCH, DELETE and lookup by key over several line files |
| `SqlMask.dfy`, `LimitCap.dfy` | the literal/comment masker and the row cap |
| `RateLimiter.dfy`, `RateLimiterRuns.dfy` | the token-bucket limiter; its runs, windows and headers |
| `RateLimiterCleanup.dfy` | the limiter compared with one that never deletes stale buckets |
| `EmbeddingCache.dfy` | the vector cache: codec, lookup, migration |
| `Watchdog.dfy` | watchdog recovery passes |
| `MemoryDemote.dfy` | the L1 entry parser and in-place replacer |
| `Base.dfy`, `Text.dfy` | options and results; white space, trimming, lines |

The state-changing parts are classes and methods with loops, each proved equal to a specification
function; the theorems are lemmas about those functions.

## Assumptions

- **Queries.** A row without an id has no action either (`ignore_errors` yields all-null rows), and
  two versions of one memory with the same timestamp are the same row. SQL ties are otherwise
  arbitrary: `ORDER BY` is any sorted permutation, and the fused theorem quantifies over all of
  them. What an anonymous row with an action would do is `AnonymousRowDecides`.
- **Tables.** `JSON.parse` undoes `JSON.stringify`, whose output is one non-blank line; files are
  empty or end with a newline (proved to be kept). The file list is in resolved order and holds
  no file twice (`ArrivesOnce`: a glob with at most one `**` segment; `ArrivesTwice` shows one with
  two), and a table name is one the registry accepts (`src/schema/table-registry.ts:138`).
- **Cache.** The JSON header codec round-trips, sha256 is injective, the conversion to binary32
  (section 3.4 of IEEE 754-2019) is idempotent, content hashes contain no zero character.
- **Limiter.** Exact arithmetic in units of 1/60000 token, integer milliseconds, a clock that does
  not run backwards. The rate and the burst are whole numbers. Which of several equally old buckets
  the store bound drops is open; the comparison in `RateLimiterCleanup` only asks that both limiters
  break such a tie alike, and that no single request takes ten minutes to make room.
- **Watchdog.** Probe results, clock reads and start failures are arbitrary inputs of each pass.

## Where the code and its documentation part

Each line names the exact condition and, where there is one, a lemma at a concrete failing input.

- `applyLimitCap` promises a capped statement; the appended `LIMIT` has no effect at top level when
  the statement ends inside a literal or comment or with unbalanced parentheses (`CapNormalises`;
  `SELECT 1 -- x` in `CommentSwallowsLimit`).
- Stale cleanup (`cleanupStore`, `makeRoom`) is described as harmless; an answer can depend on it
  exactly when `burst * 60000 > 600001 * rpm`, and only then can a bucket exceed its budget
  (`CleanupUnobservableIff`; `WindowBoundIff`, and then only in windows of more than ten minutes; two
  bursts in `TwoBurstsDiffer`, `TwoBurstsExceed`).
- The aggregate total and the fused one differ by the memories one of them misses: those without
  any parseable timestamp, and those whose newest version lacks an action (`TotalsBalance`,
  `TotalsAgreeIff`; one untimed row in `UntimedRowNotCounted`). The comment at
  `src/duckdb/queries.ts:758-762` says the page drops untimed rows too, but a live one is shown.
- A tombstone written with a clock behind the memory's last write hides nothing, and one written at
  the same instant may or may not (`TombstoneHidesIff`; `LateClockTombstone`).
- An append to a table without files is only visible when the glob covers the table's own file name
  (`AppendVisibleIff`; `data/*.json` in `JsonGlobLosesRows`). `**` is documented to match zero or
  more directories, also as the last segment; it takes at least one, and last it resolves nothing
  (`WalkLength`).
- A key cell that prints as the empty text is out of reach of `eq.` (`ReachableIff`, `KeyMatchIff`; `EmptyKeyUnreachable`).
- `migrate` loses a legacy entry whose recorded dimensions differ from its vector's length, and
  without `legacyOnly` replaces a readable entry (`MigrateKeepsIff`; `WrongDimensionsLose`,
  `MigrateOverwrites`).
- `parseMemoryEntries` accepts a separator line that ends with a carriage return, but replacing the
  entry behind it glues the pointer to the separator, which is lost (`ReplaceReparsesIff`;
  `CarriageReturnLosesSeparator`).

## Model

| member | source | states |
|---|---|---|
| ListQueries.DedupePage | src/duckdb/queries.ts:727-742 | the set-and-array loop returns the slice of first occurrences that are live |
| ListQueries.DedupDedups | src/duckdb/queries.ts:473-516 | one pass keeping the latest version yields one newest version for every id, as the window function picks |
| ListQueries.ScanIsFused | src/duckdb/queries.ts:717-742 | for every tie-breaking of both statements: sort all versions, keep first occurrences, drop tombstones = deduplicate per id, drop tombstones, sort |
| ListQueries.FusedListUnique | src/duckdb/queries.ts:1007-1033 | the fused statement has one answer, whatever ties the engine breaks |
| ListQueries.AnonymousRowDecides | src/duckdb/queries.ts:735-738 | if rows without an id carried actions, both forms agree iff the newest of them is not live |
| ListQueries.FusedShown | src/duckdb/queries.ts:1014-1020 | a row with an id is in the fused result iff it is live and the newest of its id |
| ListQueries.ListedIff | src/duckdb/queries.ts:1007-1033 | a listing holds exactly the rows with an id, an action other than `tombstone`, and no version of the same id with a later time |
| ListQueries.ListedInOrder | src/duckdb/queries.ts:304-305 | in that order: newest first, rows without a time last, by id at one instant |
| ListQueries.LiveListPrefix | src/duckdb/queries.ts:717-742 | deduplicating a prefix of the versions gives a prefix of the live list: the newest copy is never cut off |
| ListQueries.RunBoundedRead | src/duckdb/queries.ts:801-845 | one read yields the newest `window` versions in some valid order, and the hash-aggregate total |
| ListQueries.TopServesPage | src/duckdb/queries.ts:895-904 | a window that fills the page, or that exhausts the source, yields the fused page |
| ListQueries.QueryPlainListBounded | src/duckdb/queries.ts:860-906 | the refill loop ends; a result is the fused page with the aggregate total; null exactly when there is no limit, when offset + limit + 50 is past 100000, or when the last window the doubling reaches leaves the page short, so never for a source smaller than the first window |
| ListQueries.TotalsAgreeIff | src/duckdb/queries.ts:764-782 | the two totals agree iff equally many memories are missed on either side; with every action known, iff no live memory lacks a parseable timestamp |
| ListQueries.TotalsBalance | src/duckdb/queries.ts:744-782 | the arg_max count plus the shown memories without parseable timestamps is the fused count plus the memories whose newest version lacks an action |
| ListQueries.UntimedRowNotCounted | src/duckdb/queries.ts:758-762 | one live row without a parseable timestamp is shown and not counted |
| ListQueries.ActionlessRowCounted | src/duckdb/queries.ts:769-777 | a newest version without an action hides its memory from the page, and the aggregate counts it |
| ListQueries.QueryFused | src/duckdb/queries.ts:970-1080 | whichever list the statement's ties yield, the answer is that list's page and size; for a well-formed store there is one such answer |
| ListQueries.QueryMemoriesWithTotal | src/duckdb/queries.ts:929-953 | whichever path serves it, the page is the fused page for every filter, offset and limit, and without a limit the whole listing; the total is the fused one whenever the two totals agree, and otherwise that of the path |
| ListQueries.SameTotalIff | src/duckdb/queries.ts:929-953 | all pages of a plain listing report one total iff the two totals agree |
| ListQueries.ServedPagesTile | src/duckdb/queries.ts:878-953 | the pages served at 0, L, 2L, ... by any mix of bounded and fused reads concatenate to the listing |
| ListQueries.PagesTile | src/duckdb/queries.ts:487-502 | pages at offsets 0, L, 2L, ... concatenate to the whole ordered list |
| ListQueries.PagesShowEachOnce | src/duckdb/queries.ts:1021-1026 | paging shows every live memory once, newest first, and nothing else |
| MemoryLog.Partition.Lookup | src/duckdb/queries.ts:1201-1205 | the id filter with limit 1 finds the shown record of that id, if there is one |
| MemoryLog.Partition.Tombstone | src/duckdb/queries.ts:1140-1239 | appends, through the one insert, one tombstone that copies the shown record's columns, or minimal ones when there is none |
| MemoryLog.AppendShown | src/duckdb/queries.ts:473-516 | appending the latest version replaces its memory's record and no other |
| MemoryLog.TombstoneCount | src/duckdb/queries.ts:1192-1239 | in a log that may hold malformed lines, a deletion lowers the count by one for a live id and by zero otherwise; every other record stays |
| MemoryLog.TombstoneHidesIff | src/duckdb/queries.ts:1192-1239 | for every tie-breaking, the memory is surely hidden iff the tombstone is later than the shown version, and surely listed iff it is earlier |
| MemoryLog.LateClockTombstone | src/duckdb/queries.ts:1228-1231 | a tombstone one millisecond too old leaves its memory listed |
| MemoryLog.ReplayAgrees | src/duckdb/queries.ts:473-516 | with increasing timestamps per memory, the deduplicated view is exactly the log, malformed lines skipped, replayed into a map, in rows and in number |
| EditDistance.EditDistance | src/duckdb/table-store.ts:271-287 | the one-row rolling table computes the recursive two-index distance |
| EditDistance.EditLipschitz | src/duckdb/table-store.ts:271-287 | no single insert, delete or substitution shortens the distance by more than one |
| EditDistance.NoneShorter | src/duckdb/table-store.ts:271-287 | no script of single-character edits is shorter than the distance |
| EditDistance.DistIsLeast | src/duckdb/table-store.ts:271-287 | some script attains the distance and none is shorter |
| EditDistance.DistSymmetric | src/duckdb/table-store.ts:271-287 | the distance is symmetric |
| EditDistance.DistTriangle | src/duckdb/table-store.ts:271-287 | the triangle inequality |
| EditDistance.DistZeroIff | src/duckdb/table-store.ts:271-287 | distance zero iff the texts are equal |
| EditDistance.Closest | src/duckdb/table-store.ts:290-301 | the first candidate at the least distance; a listed text is its own hint |
| EditDistance.ClosestFilterOp | src/duckdb/table-store.ts:289-301 | a hint is always named, and is the first supported operator nearest to the lower-cased text |
| TableStore.KeyMatchIff | src/duckdb/table-store.ts:1293-1305 | a missing or null key is reached exactly by "" and "null"; a number, text, boolean or nested value exactly by the operand that spells it, save that "" stands for "null" |
| TableStore.EmptyKeyUnreachable | src/duckdb/table-store.ts:1293-1305 | no operand reaches a cell that holds the empty text |
| TableStore.TableFiles.AppendRowsToTable | src/duckdb/table-store.ts:976-990 | the new file contents, and the inserted count |
| TableStore.AppendVisibleIff | src/duckdb/table-store.ts:976-1004 | appended rows are in the table iff a file resolves or the glob covers the table's own file name |
| TableStore.JsonGlobLosesRows | src/duckdb/table-store.ts:982-1004 | with `data/*.json` and no file yet, appended rows are never read |
| TableStore.JsonlGlobKeepsRows | src/duckdb/table-store.ts:982-1004 | with `data/*.jsonl` they are read at once, whatever the table's name |
| TableStore.DetachedGrows | src/duckdb/table-store.ts:982-989 | rows no call reads are still written, behind those written there before |
| TableGlob.DerivedResolvesIff | src/duckdb/table-store.ts:130-187 | the directory walk arrives at the derived file iff the glob is exact, or its last segment is not `**`, no literal segment is hidden and every wildcard segment matches the file name |
| TableGlob.WalkLength | src/duckdb/table-store.ts:147-182 | every segment takes at least one path segment, `**` included; a trailing `**` resolves no file, and no hidden name is ever passed |
| TableGlob.ArrivesOnce | src/duckdb/table-store.ts:147-184 | with at most one `**` segment the walk lists a file at most once |
| TableGlob.ArrivesTwice | src/duckdb/table-store.ts:159-164 | with two, a file three directories down is listed twice |
| TableGlob.StarBetweenIff | src/duckdb/table-store.ts:166-172 | a star between two literal texts matches exactly the names that start and end with them |
| TableGlob.QuestionsIff | src/duckdb/table-store.ts:166-172 | n question marks match exactly the names of n characters |
| TableGlob.SuffixGlobCovers | src/duckdb/table-store.ts:993-1004 | literal directories and one star pattern cover the derived file iff its name ends with the suffix |
| TableStore.TableFiles.RewriteFile | src/duckdb/table-store.ts:1041-1090 | one file's rewritten text and its count of matching rows |
| TableStore.TableFiles.RewriteWithPredicate | src/duckdb/table-store.ts:1026-1102 | every file is rewritten; the count is the number of matching rows of the abstract sequence |
| TableStore.TableFiles.PatchRowsByPk | src/duckdb/table-store.ts:1232-1265 | PATCH by key is the abstract map over matching rows |
| TableStore.TableFiles.DeleteRowsByPk | src/duckdb/table-store.ts:1273-1290 | DELETE by key is the abstract filter; rows left plus rows removed are the rows before |
| TableStore.PatchInPlace | src/duckdb/table-store.ts:1043-1082 | a patch rewrites exactly the matching lines; every other line, unparseable ones included, keeps its text and place |
| TableStore.DeleteKeepsRest | src/duckdb/table-store.ts:1043-1068 | the lines left stand at ascending positions of the old ones, which are exactly the positions of the lines that do not match |
| TableStore.RewriteFiles | src/duckdb/table-store.ts:1040-1091 | rewriting file by file rewrites the lines of the whole table, and every file still ends with a newline |
| TableStore.RewriteRefines | src/duckdb/table-store.ts:1043-1082 | rewriting lines is rewriting the rows they hold, with the same count |
| TableStore.ExecRefines | src/duckdb/table-store.ts:976-1102 | one append, patch or deletion acts on the table as on one plain row sequence |
| TableStore.RunRefines | src/duckdb/table-store.ts:976-1102 | so does any sequence of calls |
| TableStore.TableFiles.FindInFile | src/duckdb/table-store.ts:1128-1149 | the first matching row of a file's non-blank lines |
| TableStore.TableFiles.FindRowByPk | src/duckdb/table-store.ts:1114-1152 | the first matching row of the abstract sequence, or nothing |
| TableStore.FirstMatchIs | src/duckdb/table-store.ts:1121-1151 | the row found matches and none before it does; if nothing is found, no row matches |
| TableStore.FindAfterDelete | src/duckdb/table-store.ts:1114-1152 | nothing is found after a deletion by the same key |
| TableStore.FindAfterPatch | src/duckdb/table-store.ts:1241-1252 | after a patch the merged row is found, unless the body moves the key |
| SqlMask.MaskSqlLiterals | src/duckdb/query-surface.ts:156-207 | the in-place scanner computes the mask: same length, every position unchanged or a space |
| SqlMask.MaskLiteral | src/duckdb/query-surface.ts:162-180 | a literal or quoted identifier is masked up to its closing quote, doubled quotes included, and everything behind it is masked as if it stood alone |
| SqlMask.MaskLine | src/duckdb/query-surface.ts:181-188 | a line comment is masked up to the newline, which stays |
| SqlMask.MaskBlock | src/duckdb/query-surface.ts:189-201 | a block comment is masked up to its first closing mark |
| SqlMask.MaskOpen | src/duckdb/query-surface.ts:166-196 | a literal or block comment that never closes is masked to the end |
| SqlMask.MaskCode | src/duckdb/query-surface.ts:202-204 | any other character stays; with the rows above this determines the mask |
| SqlMask.MaskClean | src/duckdb/query-surface.ts:150-207 | the masked text holds no quote, no `--` and no `/*` |
| SqlMask.MaskIdempotent | src/duckdb/query-surface.ts:156-207 | masking twice is masking once |
| SqlMask.MaskCommutes | src/duckdb/query-surface.ts:150-155 | replacing or inserting plain text outside literals and comments commutes with masking |
| SqlMask.VisibleIsCode | src/duckdb/query-surface.ts:150-155 | what a search finds in the masked text stands outside literals and comments of the original, unchanged |
| LimitCap.FindTopLevelLimit | src/duckdb/query-surface.ts:293-306 | the last LIMIT at depth 0, also inside longer words, or -1 |
| LimitCap.FindTopLevelOffset | src/duckdb/query-surface.ts:309-320 | the first OFFSET at depth 0, or -1 |
| LimitCap.ValueOfDigits | src/duckdb/query-surface.ts:360-371 | reading back a printed number |
| LimitCap.MaskEdited | src/duckdb/query-surface.ts:345-372 | an insert or clamp edits the masked text alike and leaves every other character in place |
| LimitCap.ApplyLimitCap | src/duckdb/query-surface.ts:336-373 | the branches: append, insert before OFFSET, clamp, leave alone, reject |
| LimitCap.AppendReads | src/duckdb/query-surface.ts:344-346 | the appended number is the statement's limit iff the statement ends open at depth 0; otherwise it has none |
| LimitCap.InsertReads | src/duckdb/query-surface.ts:347-350 | inserted before a top-level OFFSET the cap is the statement's limit |
| LimitCap.ClampReads | src/duckdb/query-surface.ts:362-372 | clamped in place the cap is the statement's limit |
| LimitCap.CapReads | src/duckdb/query-surface.ts:326-373 | the limit of every accepted output is the smaller of what was asked and the cap; `capped` says whether it was changed |
| LimitCap.RefusedIff | src/duckdb/query-surface.ts:322-359 | a statement is refused iff no plain number, closed by white space or the end, stands behind its last top-level LIMIT |
| LimitCap.CapKeepsText | src/duckdb/query-surface.ts:344-372 | an accepted statement keeps its text except that digits are replaced or the limit is put in at one place |
| LimitCap.CapNormalises | src/duckdb/query-surface.ts:326-373 | a second application returns the output unchanged iff nothing had to be appended or the statement ends open at depth 0 |
| LimitCap.CommentSwallowsLimit | src/duckdb/query-surface.ts:344-346 | `SELECT 1 -- x` is reported capped and has no limit |
| RateLimiter.Limiter.CleanupStore | src/auth/ratelimit.ts:117-129 | every five minutes, exactly the entries refilled more than ten minutes ago go; the others stay as they are |
| RateLimiter.Limiter.MakeRoomFor | src/auth/ratelimit.ts:138-153 | at the bound, stale buckets go first; another one only goes when that leaves too many, and then just enough of the least recently refilled |
| RateLimiter.Limiter.EvictOldest | src/auth/ratelimit.ts:146-152 | the dropped buckets are refilled no later than any that stays |
| RateLimiter.Limiter.Handle | src/auth/ratelimit.ts:173-265 | the resolved nonempty key is the bucket charged, else the peer address; its refill time becomes the request's, no other bucket's entry changes, and state and answer are those of the specification step |
| RateLimiterRuns.PrincipalsApart | src/auth/ratelimit.ts:179-195 | requests of another principal behind the same address take nothing from a principal's bucket |
| RateLimiterRuns.NewcomerGetsBurst | src/auth/ratelimit.ts:197-219 | an unknown caller is admitted exactly `burst` times at one instant |
| RateLimiterRuns.DefaultBurst | src/auth/ratelimit.ts:167-169 | without a configured burst that is the rate per minute; the default bound is 20000 buckets |
| RateLimiterRuns.RunValid | src/auth/ratelimit.ts:208-219 | over every run, every bucket holds between zero and the burst, and no refill lies in the future |
| RateLimiterRuns.Budget | src/auth/ratelimit.ts:208-225 | what a bucket admits is covered by what it held plus what the rate yields, unless a deletion fills it |
| RateLimiterRuns.WindowBound | src/auth/ratelimit.ts:198-225 | in any stretch of a run, from any state, a bucket not dropped by the store bound admits at most burst + rpm * d / 60000: for every configuration if the stretch is at most ten minutes, for every stretch if idle buckets refill |
| RateLimiterCleanup.WindowBoundIff | src/auth/ratelimit.ts:117-145 | for each d, that bound holds of all windows of at most d ms iff d is at most ten minutes or an idle bucket is full again before it is deleted |
| RateLimiterCleanup.RunAgrees | src/auth/ratelimit.ts:117-153 | every answer of every run equals that of the limiter that keeps the store bound but never deletes stale buckets, evictions on both sides included |
| RateLimiterCleanup.CleanupUnobservableIff | src/auth/ratelimit.ts:117-145 | deletion of stale buckets is unobservable on all runs, evictions included, iff burst * 60000 <= 600001 * rpm |
| RateLimiterCleanup.TwoBurstsDiffer | src/auth/ratelimit.ts:117-145 | otherwise two bursts, ten minutes apart, show the deletion |
| RateLimiterCleanup.UsualConfigUnobservable | src/auth/ratelimit.ts:107-169 | with the default burst, or one of at most ten minutes' rate, no run shows the deletion |
| RateLimiterRuns.RemainingIsExact | src/auth/ratelimit.ts:214-225 | X-RateLimit-Remaining is the exact number of further same-instant requests that are admitted |
| RateLimiterRuns.QuietRun | src/auth/ratelimit.ts:206-236 | for every configuration, refusals, other buckets' requests and deletions cost a bucket nothing, and add nothing before it has been idle for ten minutes |
| RateLimiterRuns.RetryAfterIsExact | src/auth/ratelimit.ts:226-236 | Retry-After (section 10.2.3 of RFC 9110), for every rate and burst of at least one: that many whole seconds later a request is admitted, and any fewer it is refused |
| RateLimiterRuns.StoreBounded | src/auth/ratelimit.ts:131-153 | the store never grows past its bound |
| EmbeddingCache.EncodeEntry | src/embedding/cache.ts:193-201 | the buffer writes produce the entry: magic, header length, header, little-endian floats |
| EmbeddingCache.DecodeEntry | src/embedding/cache.ts:140-169 | the reads and rejections of the binary reader |
| EmbeddingCache.EncodeReads | src/embedding/cache.ts:140-204 | an entry reads back rounded, iff the vector is not empty and the header records its length; the header reads back as written |
| EmbeddingCache.EntryLayout | src/embedding/cache.ts:16-21 | the bytes of an entry: 0x44424633, the header's length and each float little-endian, the header at byte 8 |
| EmbeddingCache.AcceptsIff | src/embedding/cache.ts:147-161 | the reader accepts exactly texts with the magic, a parseable header, a positive whole dimension and exactly that many floats |
| EmbeddingCache.ResizedIsRejected | src/embedding/cache.ts:150-161 | no proper prefix or extension of an accepted entry is accepted |
| EmbeddingCache.KeyTextInjective | src/embedding/cache.ts:82-87 | model and hash are determined by the key text |
| EmbeddingCache.EntryPathInjective | src/embedding/cache.ts:93-107 | different entries have different paths, although model names are sanitised |
| EmbeddingCache.SetThenGet | src/embedding/cache.ts:121-204 | a stored vector is found rounded, with its model, hash and date in the header; an empty one is not found; the lookup of every other (model, hash) is unchanged |
| EmbeddingCache.Cache.Set | src/embedding/cache.ts:184-204 | writes the one entry, or nothing when the header does not fit its length field |
| EmbeddingCache.Cache.GetVector | src/embedding/cache.ts:121-138 | the binary entry if readable, else the legacy one, else nothing |
| EmbeddingCache.LegacyFound | src/embedding/cache.ts:82-138 | without a readable binary entry a lookup yields exactly what the legacy file at the hashed, sharded path holds |
| EmbeddingCache.Cache.MigrateFile | src/embedding/cache.ts:223-258 | one legacy file: converted and unlinked, or skipped and kept |
| EmbeddingCache.Cache.Migrate | src/embedding/cache.ts:211-263 | in whatever order the directory walk visits them, the convertible files are converted and counted, and converted + skipped is the number of .json files |
| EmbeddingCache.MigrateMoves | src/embedding/cache.ts:223-258 | in the terms of the files alone: a legacy file is replaced by its .bin iff its text is an entry with a vector, its header fits and, with `legacyOnly`, no .bin stood beside it; otherwise both stay as they were |
| EmbeddingCache.ConvertingIs | src/embedding/cache.ts:224-258 | the files counted as converted, in the same terms |
| EmbeddingCache.MigrateLeaves | src/embedding/cache.ts:217-222 | every other file stays as it was |
| EmbeddingCache.MigrateStep | src/embedding/cache.ts:216-261 | converting one more file in place keeps the file-by-file description of the run |
| EmbeddingCache.MigrateKeepsIff | src/embedding/cache.ts:211-263 | in both modes, a lookup is null after iff before, with equal rounded vectors, exactly unless the entry is converted with wrong recorded dimensions or over a readable entry with another vector |
| EmbeddingCache.WrongDimensionsLose | src/embedding/cache.ts:235-239 | a one-element legacy vector that records two dimensions is found before a migration and not after |
| EmbeddingCache.MigrateOverwrites | src/embedding/cache.ts:228-255 | without `legacyOnly`, a readable entry beside a different legacy vector is replaced by it |
| EmbeddingCache.MigrateKeepsNames | src/embedding/cache.ts:235-258 | a converted entry records the legacy entry's model, hash and date, and the legacy file is gone |
| EmbeddingCache.SecondRunConvertsNothing | src/embedding/cache.ts:211-263 | a second run converts nothing |
| Watchdog.Recovery.RunWatchdogRecovery | src/cli/watchdog-recover.ts:247-378 | one pass's state file and outcome, over the parsed file of lines 220-240 |
| Watchdog.DarkPassDecides | src/cli/watchdog-recover.ts:285-378 | a dark pass counts until `confirmProbes` dark probes were seen, then is suppressed iff the latest start since the port was last alive is less than the cooldown ago, and otherwise starts the unit, with the outcome the command and the follow-up probe give |
| Watchdog.LeftoverDecides | src/cli/watchdog-recover.ts:310-328 | a leftover file holds a confirmed pass off iff it records a readable time less than the cooldown ago |
| Watchdog.UnreadableIsAbsent | src/cli/watchdog-recover.ts:220-240 | an unreadable file, or one without a finite count, is treated as absent |
| Watchdog.StoredCountIsStreak | src/cli/watchdog-recover.ts:260-296 | from no state file, or from any file once the port has been seen alive, the file holds exactly the dark probes since the port was last seen alive, and is absent without one |
| Watchdog.StoredStartOfStreak | src/cli/watchdog-recover.ts:287-296 | the file remembers when the current dark streak began |
| Watchdog.LeftoverCountsOn | src/cli/watchdog-recover.ts:285-296 | until the port is seen alive, a leftover file counts on from its own number, or from zero if unreadable |
| Watchdog.StartsAreConfirmed | src/cli/watchdog-recover.ts:298-308 | under the same condition, a start is only issued with `confirmProbes` dark probes seen and no alive one between |
| Watchdog.HungChangesNothing | src/cli/watchdog-recover.ts:272-283 | a run with its hung passes removed ends with the same file, dark count and start times |
| Watchdog.FileHoldsLastStart | src/cli/watchdog-recover.ts:348-353 | the file remembers the latest successful start until the port is alive |
| Watchdog.StartsAreSpaced | src/cli/watchdog-recover.ts:310-353 | from any state file, two successful starts without an alive port between are at least the cooldown apart |
| Watchdog.StartsInWindow | src/cli/watchdog-recover.ts:310-353 | so n + 1 starts take at least n cooldowns |
| Watchdog.FailuresAreRetried | src/cli/watchdog-recover.ts:330-346 | while the start command fails, every dark pass from the confirming one on tries again |
| MemoryDemote.ParseMemoryEntries | src/cli/memory-demote.ts:55-86 | the loops compute the parse, with each of its five refusals |
| MemoryDemote.EntriesTileIff | src/cli/memory-demote.ts:61-84 | the parse is the one way to tile the whole text with entries and separator lines |
| MemoryDemote.ParseErrors | src/cli/memory-demote.ts:56-83 | which texts are refused with which error |
| Text.TrimIs | src/cli/memory-demote.ts:74-82 | trimming takes all white space off both ends and nothing else |
| MemoryDemote.GlossIsOneLine | src/cli/memory-demote.ts:105-109 | a gloss exists iff the entry is not blank; it is one line, single-spaced, of at most 160 characters |
| MemoryDemote.GlossIs | src/cli/memory-demote.ts:105-109 | the gloss is the words of the first line that is not blank, heading marker aside, one space apart, cut off at 160 characters |
| MemoryDemote.DemotionPointer | src/cli/memory-demote.ts:130-132 | the pointer of a parsed entry always exists and cannot be taken for a separator |
| MemoryDemote.PointerReads | src/cli/memory-demote.ts:130-132 | a demotion line gives the first twelve characters of the hash, then the gloss |
| MemoryDemote.ReplaceReparsesIff | src/cli/memory-demote.ts:134-136 | reparsing shows the same entries except for the trimmed pointer, iff the entry is the first or a newline stands in front of it |
| MemoryDemote.ReplaceKeepsRest | src/cli/memory-demote.ts:134-136 | the text around the entry stays, and the pointer and one newline stand in its place |
| MemoryDemote.NewlineFilesReparse | src/cli/memory-demote.ts:55-136 | with newlines as the only line terminator every replacement is exact |
| MemoryDemote.CarriageReturnLosesSeparator | src/cli/memory-demote.ts:79-80 | a concrete file in which replacing an entry loses a separator |

## Left out

- The query engine: SQL text and its execution, reading JSONL files, connection errors. The statements are taken to mean filter, partition, order, limit and arg_max.
- Ordering by cosine distance, and the row mapping from columns to memory records (`payload` stands for the other columns).
- Listing directories: `collectJsonlFiles` and its chunk order; the table store's sort order, and an exact glob with `.` segments or naming a directory.
- `jsonl-positional` tables and the `upsertBody` path of PATCH: the code does not keep the row-sequence invariants there.
- Durability modes, fsync, temporary files and renames, git, and the namespace writer's queue: files are texts or byte strings.
- The keyword and table-function deny-lists of the query surface, and the trimming of a trailing semicolon.
- In the demotion command: selecting an entry by number, text or pattern, the size and redaction refusals, and the recall baseline, memory write and journal.
- Express, headers other than the two numbers, logging and metrics, what the bucket resolver computes; systemd, the HTTP probe and process exit codes.
- Characters are Unicode characters; the source indexes UTF-16 code units.
- LimitCap.ApplyLimitCap: limits beyond 2^53 are compared exactly, where the source rounds them.
- EditDistance.ClosestFilterOp: the conversion to lower case is any function of the text.
- RateLimiter.Limiter.Handle: the answer is exact; the source computes tokens in binary floating point.
- RateLimiterRuns.WindowBound: says nothing about a bucket dropped by the store bound, whose budget the source resets by design.
- RateLimiterCleanup.RunAgrees: assumes that ties for the oldest bucket are broken alike and that making room follows the refill within ten minutes; with a tie broken differently the two limiters may drop different buckets.
- RateLimiterRuns.RemainingIsExact: for a request whose clock reads coincide from its own refill on.
- EmbeddingCache.Cache.MigrateFile: a legacy vector whose elements are not numbers, and read or write errors, are not modelled.
- EmbeddingCache.EntryPathInjective: model names `.` and `..`, which a path join would resolve, are ordinary path components here.
- Watchdog.Recovery.RunWatchdogRecovery: a stored count that is not an integer is not modelled, nor a failing write of the state file.
