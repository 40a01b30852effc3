# Corkscrew: verified model of the scan core

Corkscrew scans cloud accounts with provider plugins, stores every scan as a snapshot in DuckDB, and
compares snapshots. This project models the parts of it that carry guarantees and proves them:

- **Scan executor** (`scanscope.dfy`, `dispatch.dfy`, `executor.dfy`). One producer, k workers, an
  unbuffered jobs channel, a results channel of capacity n and a collector, as a transition system.
  Every interleaving ends without deadlock and yields the scan that one worker would have done in
  plan order.
- **Read-only SQL** (`letters.dfy`, `text.dfy`, `sqllexer.dfy`, `sqlwords.dfy`, `readonlysql.dfy`). The
  scanner of `sqlTokens` refines an automaton that reads one byte at a time. The doubled-quote rule is
  that of section 5.3 (`<literal>`) and comments are those of section 5.2 of ISO/IEC 9075-2.
- **Archive extraction** (`paths.dfy`, `basenames.dfy`, `extraction.dfy`, `archivefiles.dfy`). Lexical
  confinement on path components, a byte budget that balances on every path through a walk, for tar
  streams and zip archives, and exactly which files an extraction leaves.
- **Snapshots and drift** (`drift.dfy`, `writelogs.dfy`, `scantables.dfy`, `scanmeaning.dfy`,
  `scanstore.dfy`, `liveedges.dfy`, `history.dfy`). Tables are maps by primary key, one transaction per
  scan. The counters are exact and add up along any history.
- **Plugin runtime, keys and installer** (`keys.dfy`, `fingerprints.dfy`, `runtime.dfy`, `installer.dfy`). A
  session cache that owns its processes, exact fingerprints and scope keys, and a rename swap in which every file
  operation may fail.
- **Stderr filter** (`stderrlines.dfy`). Its output does not depend on how the input is cut.
- **Schema lifecycle** (`schemamodel.dfy`, `schema.dfy`, `schemaresults.dfy`). A ledger of versions applied
  in one transaction, with the move of legacy tables.

`seenmaps.dfy` is the theory of loops with a seen map, `separators.dfy` that of joined keys. `sorting.dfy`,
`runes.dfy`, `positions.dfy` and `wrappers.dfy` hold string order, sorting, trimming, positions in nested lists and
optional values.

Each operation is tied twice: to a function that follows the code, and to a statement about its inputs and
results that does not use that function.

How the outside world enters: a provider's `BatchScan` is a reply per scope; file operations fail as a
`Faults` or `Visit` value says; a store has a number of SQL statements that succeed before one fails,
which is arbitrary, so every point of failure is covered; SHA-256 is an injective digest, represented
by its preimage; context cancellation is one boolean. Where a string is read byte by byte in the source
(the lexer, paths, the stderr filter) a `char` stands for a byte; in keys and stored rows it is a code
point.

Some of the code's guarantees need conditions, and the model states them:

- The NUL-joined key of deduplication confuses two resources only if a field holds a NUL byte, and does so
  for every such resource with some other (`Executor.KeySharedExactly`). Deduplication is by identity
  exactly when no two of its entries are confused (`Executor.DedupeIsFirsts`).
- Fingerprints tell NUL-free configurations apart (`Keys.FingerprintExact`). Among all configurations only
  the empty one and a single entry without NUL have a fingerprint of their own
  (`Fingerprints.FingerprintUniqueExactly`).
- A live edge is observed exactly when its resource has an ID that is not blank and a trimmed provider, and
  no other edge comes before it under the same `|`-joined key (`LiveEdges.EdgeObservedExactly`).
  `LiveEdges.CollidingEdgeIsLost` is a scan that loses one.
- Two scans of one provider and scope that start at the same time can each be the other's previous scan,
  and this happens exactly when there is such a tie (`Drift.MutualExactlyOnTies`).
- `budget.copy` computes `limit+1` in int64. When both limits are the largest int64 it wraps and the
  copy succeeds with an empty file (`Extraction.Budget.Copy`); the results about file contents exclude
  that one case and the others do not.
- `SchemaResults.BlockedExactly` says what stops an upgrade of the schema: a newer database; a legacy table
  whose archive name is taken or that is a view; legacy rows that cannot be copied, for a missing column, a NULL or,
  in a relationship table, a repeated (from, to, type); a view where a version creates or alters a
  table, a table where it defines a view, or a table to alter that is missing. Anything else that
  makes DuckDB refuse a statement counts as a failing statement.
- An archive that cannot be closed makes an extraction report an error after all files have been written
  (`Extraction.Walk`).

`dafny verify dfyconfig.toml` checks the project.

## Model

| member | source | states |
|---|---|---|
| ScanScope.SplitScanErrors | internal/shared/scan_errors.go:66-75 | every entry goes to errors or notices by its prefix, order kept |
| ScanScope.NoticesExactly | internal/shared/scan_errors.go:54-64 | notices are exactly the entries that begin with one of the three prefixes |
| ScanScope.EntriesPartition | internal/shared/scan_errors.go:54-75 | the split loses, doubles and misfiles no entry: the two sides together are the entries as a multiset, and only notices are on the notice side |
| ScanScope.EntriesInOrder | internal/shared/scan_errors.go:54-75 | each side holds exactly the entries of its kind, at increasing places of the reply |
| Dispatch.InvStep | internal/scanexec/executor.go:138-219 | every step of the dispatcher (hand-off, scan, send, worker exit, close, receive, finish) keeps the invariant that each scope index is in exactly one place, every result is its own scope's scan, and the jobs and results channels close in order |
| Dispatch.SendNeverBlocks | internal/scanexec/executor.go:141-160 | in every state of the invariant a worker that wants to send finds room in the buffer of n results |
| Dispatch.MeasureFalls | internal/scanexec/executor.go:138-219 | each step lowers a measure that starts as a natural number and never goes below zero, so every run ends |
| Dispatch.Progress | internal/scanexec/executor.go:138-219 | every state that is not final has an enabled step: no deadlock for any worker count from 1 to n |
| Dispatch.FinishesComplete | internal/scanexec/executor.go:203-219 | when the closed results channel is drained every scope has been filed, so the collector's assertions hold |
| Dispatch.SafeAlways | internal/scanexec/executor.go:138-219 | in every state of every interleaving: each scope is undispatched, held, buffered or received exactly once, the buffer holds at most n results, no send blocks and no assertion has failed |
| Dispatch.EveryRunCollectsTheScan | internal/scanexec/executor.go:138-219 | every run that cannot go on has finished, and what it collected is the sequential scan of the scopes in plan order |
| Dispatch.DispatchAndCollect | internal/scanexec/executor.go:138-219 | the protocol run with an arbitrary scheduler ends and returns the sequential scan |
| Executor.KeyIsIdentity | internal/scanexec/executor.go:282-297 | equal joined keys are equal identities when provider, account and type hold no NUL |
| Executor.KeySharedExactly | internal/scanexec/executor.go:282-297 | a resource shares its joined key with one of another identity exactly when one of its four fields holds a NUL |
| Executor.KeyCollision | internal/scanexec/executor.go:282-297 | two literal resources of different identities of which deduplication keeps one |
| Executor.DedupeResources | internal/scanexec/executor.go:282-297 | the loop keeps what the specification keeps |
| Executor.DedupeIsFirsts | internal/scanexec/executor.go:282-297 | deduplication keeps exactly the first non-nil resource of each (provider, account, type, id), in order, if and only if no two entries have the same joined key and different identities; otherwise it loses an identity |
| Executor.NulFreeIsNotMixed | internal/scanexec/executor.go:282-297 | entries without a NUL byte are never mixed up |
| Executor.DedupeConcat | internal/scanexec/executor.go:225-297 | dedupe(a + b) is dedupe(a) followed by dedupe(b) without the keys of a, so the earliest requested scope wins |
| Executor.DedupeIdempotent | internal/scanexec/executor.go:282-297 | deduplicating again changes nothing |
| Executor.DedupeKeys | internal/scanexec/executor.go:282-297 | no key is lost and none occurs twice |
| Executor.ServiceCountsAreSums | internal/scanexec/executor.go:225-259 | each merged service count is the sum over all scopes that report statistics, modulo 2^32, and a service has a count exactly when a scope reports it |
| Executor.AddServiceCounts | internal/scanexec/executor.go:236-238 | one scope's counts added in any map order |
| Executor.MergedTotalHolds | internal/scanexec/executor.go:264-272 | the asserted condition holds exactly when as many resources were merged as the scopes have; in AggregateScopes that is proved to be so |
| Executor.AggregateScopes | internal/scanexec/executor.go:225-259 | resources, totals, failed scopes and the unreachable count are those of the scopes in plan order; what they are in terms of the replies is said by EarliestKept and TotalsAreReported |
| Executor.EarliestKept | internal/scanexec/executor.go:221-297 | each kept resource stands at a place of the replies, places increase with requested scope and position in the reply, no earlier place holds the same key, and every non-nil resource has its key among the kept ones |
| Executor.TotalsAreReported | internal/scanexec/executor.go:225-259 | the totals told from the replies: the earliest resource of each key, and resource, failure and per-service counts that are the 32-bit values of the sums over the replies |
| Executor.Execute | internal/scanexec/executor.go:90-134 | argument errors, then for every schedule the outcome of a sequential scan, cancellation included; and told from the replies alone: one result per scope in requested order, the earliest resource of each key, 32-bit sums, the status, and the unobserved scopes in byte order, each as often as requested |
| Executor.StatusMeans | internal/scanexec/executor.go:104-133 | with the context alive: Complete exactly when no scope has a non-notice error, Failed exactly when every scope is unreachable, Partial otherwise |
| Executor.SequentialReports | internal/scanexec/executor.go:90-134 | the sequential scan has all these properties for every plan and every list of replies |
| Sorting.BeforeExactly | internal/scanexec/executor.go:119-133 | the order of sorted names: a beginning comes first, otherwise the smaller byte at the first difference |
| Sorting.SortSorts | internal/scanexec/executor.go:119-133 | sorting sorts |
| SqlLexer.SqlTokens | internal/data/session.go:373-433 | the index-jumping scanner computes the tokens, semicolon count and error of the per-character automaton |
| SqlLexer.RunLiteral | internal/data/session.go:386-405 | reading a doubled quote as an escape is the same as closing the literal and reopening it |
| SqlLexer.RunComment | internal/data/session.go:412-418 | the automaton leaves a block comment at the first star-slash and nowhere else |
| SqlLexer.SkipLiteral | internal/data/session.go:386-405 | the literal loop stops after the first undoubled quote, or reports that there is none |
| SqlLexer.SkipLine | internal/data/session.go:406-411 | skipping to the newline agrees with the automaton's line-comment mode |
| SqlWords.TokensAreWordRuns | internal/data/session.go:373-433 | the tokens of a well-formed statement are, in order, the maximal runs of letters and underscores outside literals and comments; each has no upper-case letter and differs from its run in the case of letters only |
| SqlWords.WordBytesExactly | internal/data/session.go:423-425 | of the ASCII bytes exactly the letters and the underscore belong to words, and above them the Latin-1 letters |
| SqlWords.LexIgnoresCase | internal/data/session.go:379 | statements that differ in the case of ASCII letters only lex alike, errors included |
| Letters.LowerExactly | internal/data/session.go:379 | lower-casing gives the one text without upper-case letters that differs in case only |
| Text.SpaceLenExactly | internal/data/session.go:435-438 | a byte string begins with white space exactly when it begins with the UTF-8 encoding of a Unicode white space character |
| ReadOnlySql.ValidateReadOnlyStatement | internal/data/session.go:344-371 | the verdict, with the source's order of checks |
| ReadOnlySql.AcceptedWords | internal/data/session.go:344-371 | accepted exactly when the first word of the code is a reading keyword in any case, no word of the code is a mutating one in any case, and there is no semicolon in code or a single trailing one |
| ReadOnlySql.AcceptsIgnoresCase | internal/data/session.go:344-371 | statements that differ in the case of ASCII letters only are accepted alike |
| ReadOnlySql.RefusalNames | internal/data/session.go:344-371 | a refusal names the first word if it is no reading keyword, else the first mutating keyword; empty and unlexable statements have their own verdicts |
| ReadOnlySql.LexAcrossSemicolon | internal/data/session.go:373-433 | a semicolon in code separates two independent lexes |
| ReadOnlySql.OnlyTrailing | internal/data/session.go:435-438 | the raw-text check holds exactly when the first semicolon byte is followed by white space only |
| ReadOnlySql.SecondStatement | internal/data/session.go:344-371 | for s1 ending in code, s1;s2 is accepted exactly when s1 is, s1 has no semicolon byte, and s2 is blank |
| ReadOnlySql.AcceptedSemicolon | internal/data/session.go:344-371 | an accepted statement with a lexed semicolon has that one semicolon byte, only white space after it, and the text before it is accepted too |
| ReadOnlySql.EscapedReadsBack | internal/db/connect.go:258-260 | the escaped value is one whole literal exactly when no quote follows, and undoubling then recovers the value |
| ReadOnlySql.QuotedIsInert | internal/db/connect.go:258-260 | a quoted escaped value in the code of a statement adds no token, no semicolon and no error: the lex is that of the text before joined with that of the text after |
| ReadOnlySql.LineCommentIsInert | internal/data/session.go:406-411 | a line comment in code adds no token, no semicolon and no error, whatever it says; without a newline it reaches to the end |
| ReadOnlySql.BlockCommentIsInert | internal/data/session.go:412-418 | a block comment in code adds nothing either, as long as it does not close early |
| ReadOnlySql.IdentifierIsInert | internal/data/session.go:386-405 | nor does a double-quoted identifier |
| ReadOnlySql.CommandWithLiteral | internal/data/session.go:153-163 | a command word followed by a quoted escaped value lexes as the word alone, and the value is read back |
| Paths.ConfineExact | internal/archive/archive.go:114-141 | a target is returned exactly when the cleaned join lies strictly below the destination, nothing for the destination itself, an error otherwise |
| Paths.RefusedExactly | internal/archive/archive.go:114-125 | names with a backslash or NUL are invalid, rooted ones absolute, and those of which stripping leaves nothing are skipped; exactly the others reach the path check |
| Paths.ResolveParent | internal/archive/archive.go:126-138 | a ".." takes back the component before it and does nothing at the root; empty and "." components do nothing |
| Paths.TargetsAreConfined | internal/archive/archive.go:114-141 | every target is a clean path strictly inside the destination |
| Paths.PlainNames | internal/archive/archive.go:114-141 | without a ".." component a name maps to the destination followed by its non-empty, non-dot components; "..foo" is such a component |
| Paths.BelowIsExtension | internal/archive/archive.go:126-138 | strictly below, as text, is the same as a proper extension of the components |
| Paths.RelShape | internal/archive/archive.go:126-138 | filepath.Rel gives "." for the base itself, and a leading ".." exactly when the target is not inside the base |
| Extraction.Budget.constructor | internal/archive/archive.go:187-193 | the whole budget is remaining |
| Extraction.Budget.Skip | internal/archive/archive.go:222-230 | a skip admits, charges and keeps written + skipped + remaining = bytesMax, or changes nothing |
| Extraction.Budget.Copy | internal/archive/archive.go:234-251 | the copy succeeds exactly when the body can be read and fits both limits, and then all of it is written; at most one byte past the limit is emitted; limit+1 wraps when both limits are the largest int64 |
| Extraction.WriteEntry | internal/archive/archive.go:143-154 | only the target changes, and on success it holds the entry's bytes, all charged |
| Extraction.VisitTarEntry | internal/archive/walk.go:91-103 | admit, visit, charge: the re-check in skip after an uncharged visit cannot fail |
| Extraction.WalkTar | internal/archive/walk.go:64-105 | on every path, limit failures included: written + skipped + remaining = bytesMax, remaining is not negative, at most bytesMax + 1 bytes are emitted, at most entryCountMax items are looked at; it succeeds exactly when every item up to the end is of a supported kind, within both limits and visited with success, and then the files and both byte counts are those of all entries in order |
| Extraction.WalkZip | internal/archive/walk.go:116-147 | the same for zip members, of which those that are not copied cost nothing |
| Extraction.Walk | internal/archive/walk.go:32-62 | opening, walking and closing an archive of either format: success exactly when all three succeed; when only closing fails the files are those of a success |
| ArchiveFiles.ExtractTree | internal/archive/archive.go:54-74 | for both formats: whatever fails, no file outside the destination changes; it succeeds exactly when strip is not negative, the destination can be made, every item is readable and affordable and every entry's name is a target or skipped; then each target of a regular file holds the whole body of the last such entry, and every other path is as before |
| ArchiveFiles.TreeSucceedsExactly | internal/archive/archive.go:54-74 | the walk over the confined targets succeeds exactly on those conditions, told from the items and their bodies |
| ArchiveFiles.TreeFiles | internal/archive/archive.go:64-73 | regular files are written to their targets, in order, directories and skipped names nowhere |
| ArchiveFiles.ExtractFile | internal/archive/archive.go:79-100 | for both formats: it succeeds exactly when a first regular entry has the binary's base name, with or without .exe, everything up to it can be passed within the limits, and it can be written and renamed; the destination then holds its whole body; on any failure before that the destination is as it was; nothing else but the temporary sibling changes |
| ArchiveFiles.SearchSucceedsExactly | internal/archive/archive.go:79-100 | the search succeeds exactly on those conditions |
| BaseNames.BaseExactly | internal/archive/archive.go:86-89 | path.Base gives a component exactly for the names that end in it, after a slash or from the start, trailing slashes aside, and the dot for the empty name |
| Drift.ChangesAreExact | internal/db/graph_store.go:755-782 | new + updated + unchanged is the current snapshot, deleted + updated + unchanged the prior one |
| Drift.ChangesRebuild | internal/db/graph_store.go:755-782 | applying the classified changes to the prior snapshot gives the current key-to-hash map |
| Drift.FirstScanIsAllNew | internal/db/graph_store.go:755-782 | without a prior scan all rows are new and nothing is updated or deleted |
| Drift.QueryPrevious | internal/db/graph_store.go:752-783 | the query gives the scan that qualifies and started last, of equal starts the one with the greatest ID, whatever order the rows come in, and none exactly when no scan qualifies |
| Drift.SizesCount | internal/db/graph_store.go:755-782 | the sizes of the classes are the numbers of the new, changed and gone observation rows, and with the unchanged ones they add up to both scans |
| Drift.MutualExactlyOnTies | internal/data/history.go:110-121 | two comparable scans have each other as previous scan exactly when two comparable scans start at the same time |
| SeenMaps.KeptIsFirst | internal/db/graph_store.go:130-158 | the seen map lets the first item of each key through |
| SeenMaps.KeptFrom | internal/db/graph_store.go:130-158 | whatever the seen map lets through is the first item of its key |
| SeenMaps.KeepsAllExactly | internal/db/observations.go:14-81 | all items are kept exactly when their keys are distinct and unseen |
| SeenMaps.KeptByIdentityExactly | internal/db/observations.go:14-81 | going by a joined key keeps the first item of each identity exactly when no two items share a key and differ in identity, and fewer items otherwise |
| ScanStore.GraphStore.StoreScanRelationships | internal/db/graph_store.go:441-486 | upserts the edges of the first relationship of each key, and no others |
| ScanStore.GraphStore.StoreScanResources | internal/db/graph_store.go:130-158 | upserts each first resource of a key and its edges; fails when a resource has no table or cannot be stored, or a statement fails |
| ScanStore.GraphStore.StoreScanObservations | internal/db/observations.go:14-81 | upserts the first observation of each subject and of each relationship key |
| ScanStore.GraphStore.StoreScanOutcomeMetadata | internal/db/graph_store.go:705-784 | upserts the scan's row and, for a complete scan, the counters against its previous scan; what the counters are is said by CountersAreExact |
| ScanStore.GraphStore.StoreScanOutcome | internal/db/graph_store.go:103-128 | all of a scan or none of it: on failure the committed tables are unchanged; on success the four data tables are exactly what the writes of first occurrences make of them, the last write of a row counting, and the scan row has its metadata and, for a complete scan, exact counters |
| ScanMeaning.PersistedMeans | internal/db/graph_store.go:103-128 | the tables after a scan, told from its resources: which entries and relationships are written, to which row and with which value, and what stays as before |
| ScanMeaning.CountersAreExact | internal/db/graph_store.go:752-783 | for every complete scan, with p its previous scan: created counts its rows that p lacks, updated those p has with another hash, deleted the rows of p that are gone, and with the unchanged rows they add up to both sizes |
| ScanMeaning.AcceptedExactly | internal/db/graph_store.go:130-158 | a scan is accepted exactly when every resource is destined for a table and no stored one goes to the custom table without a provider |
| ScanMeaning.ResourceTableExactly | internal/db/graph_store.go:488-517 | the table: a known override, else the official provider's own, else the custom one unless the provider is blank |
| WriteLogs.LogWins | internal/db/graph_store.go:441-486 | upserting rows one after another leaves the last write of each key and everything else as before |
| LiveEdges.EdgeObservedExactly | internal/db/observations.go:56-79 | for a fresh scan ID, the live edge of a relationship is among the observed ones exactly when its resource has an ID that is not blank and a trimmed provider, and the first relationship observed under its joined key is the same edge |
| LiveEdges.EveryLiveEdgeIsObserved | internal/db/graph_store.go:441-486 | every live edge of a scan is observed if and only if that holds of all relationships behind its live edges |
| LiveEdges.SameProviderExactly | internal/db/observations.go:24-27 | the live and the observed provider of a resource are equal exactly when the provider is trimmed and, if empty, the fallback is blank |
| LiveEdges.CanonicalEdgesAreObserved | internal/db/observations.go:56-79 | resources with bar-free, non-blank IDs, bar-free targets and trimmed bar-free providers have all their live edges observed |
| LiveEdges.CollidingEdgeIsLost | internal/db/observations.go:56-79 | a literal scan of two resources whose second edge is written live and is not observed |
| History.ObservationCount | internal/db/observations.go:14-55 | with a fresh scan ID, at most as many observations as resources, and equally many exactly when no entry is nil or blank and no subject key repeats |
| History.SubjectsObservedExactly | internal/db/observations.go:14-55 | one observation for each (provider, id) exactly when no two resources share a joined key and differ in provider or ID, and fewer otherwise |
| History.ObservationCountBySubject | internal/db/observations.go:14-55 | without such a mix-up, as many observations as resources exactly when none is nil or blank and no (provider, id) repeats |
| History.BarFreeIsNotMixed | internal/db/observations.go:24-30 | resources with bar-free observed providers are never mixed up |
| History.FirstIsObserved | internal/db/observations.go:14-55 | of resources with one subject key the first one's hash is observed |
| History.ChainLinks | internal/data/history.go:110-121 | along a chain each scan's previous scan is the one before it, and the first has none |
| History.OthersStay | internal/db/graph_store.go:705-784 | persisting under a fresh ID leaves every other scan's row and snapshot alone |
| History.NewRow | internal/db/graph_store.go:705-751 | the row of a persisted scan has its metadata with the defaults, and an incomplete scan keeps the counters its row had |
| History.CountsAgainstLast | internal/db/graph_store.go:752-783 | a new scan's counters count its rows against those of the last comparable scan |
| History.HistoryIsChain | internal/db/graph_store.go:705-784 | any in-order history, with other scans mixed in, gives one chain |
| History.DriftAddsUp | internal/db/graph_store.go:752-783 | over any in-order history the previous links form one chain through all complete scans of a provider and scope, every scan of it has exact counters against the one before in the final tables, and new minus deleted summed up to a scan is that scan's observation count |
| Keys.ConfigurationFingerprint | internal/provider/runtime.go:137-151 | the loop over the sorted keys hashes the written form of the configuration |
| Keys.ParsedOfWritten | internal/provider/runtime.go:143-149 | the written form of NUL-free entries reads back exactly |
| Keys.FingerprintExact | internal/provider/runtime.go:137-151 | two NUL-free configurations have equal fingerprints exactly when they are equal |
| Fingerprints.FingerprintUniqueExactly | internal/provider/runtime.go:137-151 | among all configurations, a fingerprint belongs to one alone exactly when that is empty or has a single entry and no NUL |
| Fingerprints.SharedWithOneEntry | internal/provider/runtime.go:143-149 | every configuration that is not empty has the fingerprint of one with a single entry whose key holds no NUL |
| Keys.FingerprintCollision | internal/provider/runtime.go:143-149 | with a NUL in a value two different configurations share a fingerprint |
| Keys.ScanScopeKey | internal/data/persistence.go:75-89 | the key of the trimmed, lower-cased provider and the sorted trimmed lists |
| Keys.PayloadExact | internal/data/persistence.go:86-88 | the JSON text determines the provider and both lists |
| Keys.QuotedReadsBack | internal/data/persistence.go:86-88 | a JSON reader (section 7 of RFC 8259) gets every string of the payload back, whatever follows it |
| Keys.ScopeKeyExact | internal/data/persistence.go:75-89 | scope keys are equal exactly when the trimmed, lower-cased providers are, and every non-empty value occurs in both lists of services, and of scopes, equally often after trimming |
| Runes.TrimSpaceExactly | internal/data/persistence.go:75-89 | trimming takes white space off both ends, and all of it |
| Sorting.SortCanonical | internal/data/persistence.go:75-89 | sorted lists are equal exactly when their multisets are |
| Runtime.PluginRuntime.Open | internal/provider/runtime.go:73-114 | Open is the step on the abstract state, with every error path |
| Runtime.PluginRuntime.Close | internal/provider/runtime.go:116-135 | every owned process is closed once; an error is reported exactly when a closer failed |
| Runtime.OpenKeepsValid | internal/provider/runtime.go:73-114 | the live processes stay those the sessions own; a failed Open leaves no process and no session |
| Runtime.OpenExactly | internal/provider/runtime.go:73-114 | an open succeeds exactly when the runtime is open, the provider installed, and there is a session or the plugin initializes; otherwise the error is the first condition that fails, and other sessions are as before |
| Runtime.AlwaysValid | internal/provider/runtime.go:73-135 | over any sequence of calls the live processes are exactly those owned by the sessions and no closer is called twice |
| Runtime.SameKeySameSession | internal/provider/runtime.go:73-114 | two successful Opens with no Close between give the same session exactly when their keys agree, and the second then changes nothing |
| Runtime.SharedExactly | internal/provider/runtime.go:73-151 | for NUL-free configurations two successful Opens share one launch exactly when name and configuration agree |
| Runtime.ClosedForGood | internal/provider/runtime.go:73-135 | after Close every launched process has been closed exactly once and no Open succeeds or launches |
| Installer.InstallManaged | internal/provider/install.go:45-108 | through every step and failure the previous package is whole at the destination or the backup until the new one is active and the destination is never partly written; installed exactly when no step fails, and then a directory with the manifest and the program under its name; an earlier failure leaves the destination as it was, or the package at the backup if the restore failed too |
| Installer.Prepare | internal/provider/install.go:66-77 | the whole package is built in the temporary directory exactly when no step fails |
| Installer.CopyExecutable | internal/provider/install.go:110-128 | only the temporary directory changes, and the copy is whole on success |
| StderrLines.PlainStderrLines.Write | internal/provider/launcher.go:73-88 | without an output error the output is the passing complete lines of all input so far and the buffer the newline-free rest; after an error no line is lost |
| StderrLines.LineByLine | internal/provider/launcher.go:73-88 | the output is decided line by line |
| StderrLines.PlainExactly | internal/provider/launcher.go:73-88 | exactly the lines that begin with a log record's "@" key, white space aside, are dropped |
| StderrLines.RunAppend | internal/provider/launcher.go:73-88 | reading two pieces is reading their concatenation |
| StderrLines.WriteAll | internal/provider/launcher.go:73-88 | any division of an input into writes gives the same output and buffer |
| Schema.SchemaStore.EnsureSchema | internal/db/schema_lifecycle.go:21-128 | the database is unchanged or at version 7 with the missing versions recorded in order; every table, added column and view of those versions is there, a table holding its old rows and columns or those of the version that made it; it fails when it is blocked, and otherwise only because a statement fails |
| Schema.SchemaStore.MigrateV1 | internal/db/schema_lifecycle.go:397-524 | moves the legacy tables aside, copies their rows and puts the views in place; it fails when the legacy tables or the definitions of version 1 block it, and otherwise only because a statement fails |
| Schema.SchemaStore.MoveAside | internal/db/schema_lifecycle.go:577-592 | the table is under the archive name with all its rows and no index, or the archive name was taken or a statement failed |
| Schema.SchemaStore.ArchiveOne | internal/db/schema_lifecycle.go:548-572 | which tables move: base tables, without the canonical column where that is asked |
| Schema.SchemaStore.ArchiveAll | internal/db/schema_lifecycle.go:398-427 | each table is dealt with by its own rule and nothing else changes |
| Schema.SchemaStore.Define | internal/db/schema_lifecycle.go:429-456 | the definitions of a version: they fail on a view in the place of a table, a table in the place of a view, or a table to alter that is missing; tables keep their rows |
| Schema.SchemaStore.CopyRelationships | internal/db/schema_lifecycle.go:496-507 | each moved table's rows are in cloud_relationships with their properties; all other edges are unchanged; it fails on a missing column, a NULL in a key column or two rows of one (from, to, type) |
| SchemaModel.CopyRowsCopies | internal/db/schema_lifecycle.go:498-503 | one upsert statement puts every row in place and leaves all other edges alone |
| SchemaModel.DdlFitsExactly | internal/db/schema_lifecycle.go:49-117 | whether a version's definitions fit when its turn comes is known from the starting database |
| SchemaModel.DdlDefines | internal/db/schema_lifecycle.go:134-136 | each version's definitions carry on what a name is: a table with its first rows and columns and all added columns, a view, or nothing |
| SchemaModel.DefinedIsInPlace | internal/db/schema_lifecycle.go:134-136 | so every added column is in its table, every created table is there, with the shipped columns if it is new, and every view is a view |
| SchemaResults.LedgerComplete | internal/db/schema_lifecycle.go:49-117 | the ledger's maximum is then 7 and exactly the versions above the old one were added |
| SchemaResults.NamesComplete | internal/db/schema_lifecycle.go:49-117 | each added version is recorded under its own name |
| SchemaResults.SecondRun | internal/db/schema_lifecycle.go:21-128 | a second run changes nothing; if macros were edited in between it puts only them back |
| SchemaResults.SecondRunIsFree | internal/db/schema_lifecycle.go:21-128 | nothing blocks a second run |
| SchemaResults.LegacyRowsVisible | internal/db/schema_lifecycle.go:496-521 | after version 1 each provider's view shows every legacy row with values in all key columns and its properties, and the archive keeps all rows |
| SchemaResults.LegacyEdgesExactly | internal/db/schema_lifecycle.go:496-507 | the edges under a legacy provider are those of its rows and those that were there before |
| SchemaResults.LegacyScansKept | internal/db/schema_lifecycle.go:459-474 | exactly the scans of a legacy scan_metadata table are added, each with an ID and a scan time |
| SchemaResults.BlockedExactly | internal/db/schema_lifecycle.go:21-128 | a database is blocked exactly when it is newer, or from before version 1 with a legacy table that cannot be moved or copied, or a definition of a pending version meets a view for a table, a table for a view, or no table to alter |
| Schema.BlockedLater | internal/db/schema_lifecycle.go:397-524 | what stops the later steps of version 1 at the legacy tables was so at the start: a taken archive name, a view in a table's place, a missing column, a NULL or a repeated row |
| SchemaResults.NewIsNotBlocked | internal/db/schema_lifecycle.go:21-128 | a database without tables and views is not blocked |
| Schema.ReachedFirst | internal/db/schema_lifecycle.go:49-57 | the block of version 1 moves the legacy data and meets no obstacle |
| Schema.ReachedNext | internal/db/schema_lifecycle.go:59-117 | each later version's block keeps what earlier ones established: legacy data in place, existing tables with their rows, and the kinds of all names as foreseen |

## Left out

- Progress events, log output, durations and timeouts of the executor: they carry no result. `DurationMs` sums are not modelled either.
- Letters.Lower: only ASCII letters are lowered. Provider names outside ASCII are not lowered.
- SqlWords.TokensAreWordRuns: the source re-encodes bytes above 0x7F when it lowers a token, and the model leaves them; no keyword contains such a byte, so verdicts do not depend on it.
- Keys.FingerprintExact: SHA-256 is taken to be injective, because a collision-free hash is what the source relies on.
- Runtime.SharedExactly: the session key `name + ":" + digest` is modelled as the pair, because the digest has a fixed length.
- Runtime concurrency: the mutex makes each call one step, and the model starts from those steps.
- Executor.ServiceCountsAreSums: sums wrap modulo 2^32 as int32 does in the source.
- Extraction: directories, file modes and decompression are not modelled; creating parent directories is part of an entry's opening step, which may fail. Which error is reported is modelled only where a caller can tell.
- Extraction.WalkTar: with both byte limits at the largest int64 the contract does not say when the walk succeeds or which files result, because `limit+1` wraps there.
- StderrLines.Sink: a failing output write leaves nothing behind, so partial writes of one line are not modelled.
- ScanStore: columns other than keys, hashes and properties, the provider-specific inserts, and `resourceSemanticHash`, which is an opaque value per resource. Default IDs and start times of scan metadata are not modelled.
- LatestCompleteScan, result-row scanning and the attach statement: single selections and expressions that would add only easy members.
- Schema.SchemaStore.MigrateV1: the contents of the copied API metadata and cross-cloud rows, and of `scan_metadata` beyond its keys, are not modelled, only whether they can be copied. Names of legacy objects are structured values (a table, a provider's relationships, an archive), so clashes between them by text are not modelled.
- Schema.SchemaStore.EnsureSchema: table and view definitions, and the columns that copying statements use, are parameters. An existing table that lacks a column named by an index, a view or a backfill, or a value that cannot be cast, is a failing statement.
- Installer.InstallManaged: names made by `os.MkdirTemp` are unused paths; manifest validation and the registry are not modelled.
- Paths: POSIX paths only, on an absolute, clean destination. The source has that as an assertion on the destination.
- DuckDB, gRPC, go-plugin, tar, zip and gzip themselves; the command line, the TUI, generated code and the network clients.
