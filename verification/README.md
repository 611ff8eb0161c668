# DataWareHouse core in Dafny

A model of the core of the DataWareHouse package. DataWareHouse is a SQLite store of
video-analysis runs: tasks, subjects, videos, frame-interval tags, versioned core
libraries and algorithms, their outputs, evaluations and problem analyses. The model
covers three parts:

- **Schema-drift validator** (`SchemaValidator`). It compares a catalog snapshot with
  the expected model of 13 tables and 2 indexes. Findings are split into blocking
  issues and advisory warnings. It fills the found/missing lists and the summary
  counts, decides validity, and renders the report.
- **Data-integrity audit and version chains.** The audit covers reversed intervals,
  orphaned tags and repeated commit hashes. The version history of both registries
  follows base-version links and comes back oldest first. The dispatch by table name,
  the table statistics and the task-execution search are modelled too.
- **Write-path guards and lookups.** These are the commit-hash format, the tag
  interval and partial update, the problem flag, the evaluation rates and counts, and
  the evaluation overview. The lookups and listings that go with them are modelled
  too.

The store is abstract. A table is a sequence of `Entry(id, row)` in storage order. A
foreign-key parent table is the set of its ids. A write returns the new table
together with an `Ok`/`Err` result. On every error the table comes back unchanged.
Errors are typed the way the package's exception classes are: validation,
constraint, unique-constraint and not-found, each with the table or field it names.
A new row's id is one more than the largest id stored, or 1 in an empty table.

Modules, in dependency order:

- `Outcomes`: `Option`, `Result`, `DwhError`, `Write`.
- `Seqs`: selection, stable insertion sort, text order.
- `ExpectedSchema`, `TypeCompat`, `Catalog`, `SchemaValidator`, `SchemaProperties`
  and `ValidationReport`: the validator.
- `Tables`: an id-keyed table.
- `CommitHash`, `Versions`, `VersionChain`: the two version registries.
- `Tags`, `Analysis`, `Evaluation`: the write paths.
- `IntegrityAudit`, `Analytics`: the audit and the queries.

Some behaviour of the code that is easy to miss:

- The rendered report sorts only the table and index name lists (`datawarehouse/validation.py:480-506`). Issues and warnings keep the order in which they were found.
- A per-table failure of the foreign-key listing is an advisory warning, not a blocking issue (`datawarehouse/validation.py:409-414`).
- The foreign-key pass runs over every expected table, including the missing ones. A missing table lists no keys, so with enforcement on, each of its declared keys is also reported as a missing foreign key (`datawarehouse/validation.py:386-407`; `SchemaProperties.MissingTableKeysReported`).
- `update_tag` validates the merged interval before its early return for "no fields supplied" (`datawarehouse/tag_api.py:231-270`). So a call with no fields can still fail on a stored reversed interval. In every outcome the table is left unchanged.

## Model

| member | source | states |
|---|---|---|
| ExpectedSchema.ExpectedModelClosed | datawarehouse/validation.py:19-176 | every foreign key of the expected model targets a declared table and a column declared as that table's primary key |
| ExpectedSchema.TableNamesDistinct | datawarehouse/validation.py:19-176 | the thirteen expected table names, in declared order, without repeats |
| ExpectedSchema.ExpectedTablesWellFormed | datawarehouse/validation.py:19-176 | each expected table declares distinct column names and every foreign-key source column is one of its columns |
| TypeCompat.Upper | datawarehouse/validation.py:311 | the actual type is upper-cased before comparison, keeping its length, and holds no ASCII lower-case letter |
| TypeCompat.UpperIdempotent | datawarehouse/validation.py:311 | upper-casing twice is upper-casing once |
| TypeCompat.IsTypeCompatible | datawarehouse/validation.py:422-435 | two types are compatible iff they are equal or both are among INTEGER, REAL and TEXT (so INTEGER vs BLOB is incompatible) |
| TypeCompat.TypeCompatSymmetric | datawarehouse/validation.py:422-435 | the compatibility matrix is symmetric |
| Catalog.LookupColumnMisses | datawarehouse/validation.py:307-313 | looking up a column finds nothing iff no listed column has that name |
| Catalog.LookupColumnLast | datawarehouse/validation.py:307-313 | when names repeat in a listing the last one wins, as in the dictionary the listing is read into |
| Catalog.ReservedPrefix | datawarehouse/validation.py:285-301 | `NOT LIKE 'sqlite_%'` is case-insensitive and `_` matches any character: `sqliteXtab` is skipped, `tag_table` is kept |
| SchemaValidator.ColumnPass | datawarehouse/validation.py:319-349 | one missing-column issue per absent expected column; for a present one, a type-mismatch warning iff the types are incompatible and a primary-key issue iff the flags differ; no issue iff every column conforms |
| SchemaValidator.ExtraColumns | datawarehouse/validation.py:352-363 | one extra-column warning per listed name the table does not declare, each name once |
| SchemaValidator.TableCheck | datawarehouse/validation.py:230-241 | an unlisted table gives exactly one missing-table issue and nothing else; a listed one gives its column findings |
| SchemaValidator.TablePass | datawarehouse/validation.py:230-241 | found plus missing equals the number of expected tables; a missing-table issue exactly for the unlisted expected tables; no issue iff every table conforms |
| SchemaValidator.TablePassSplitsNames | datawarehouse/validation.py:230-241 | found and missing are the expected names, listed and not listed, in declared order |
| SchemaValidator.IndexPass | datawarehouse/validation.py:243-257 | every missing index gives a missing-index warning and nothing else |
| SchemaValidator.IndexPassSplitsNames | datawarehouse/validation.py:243-257 | found and missing indexes split the expected names in declared order |
| SchemaValidator.MissingForeignKeys | datawarehouse/validation.py:393-407 | an issue exactly for each declared key absent from the listing; listed keys nobody declared are never reported |
| SchemaValidator.ForeignKeyTables | datawarehouse/validation.py:386-414 | all expected tables are checked; a table whose listing fails gives a warning, not an issue |
| SchemaValidator.ForeignKeyPass | datawarehouse/validation.py:379-384 | enforcement off gives the single foreign-keys-disabled warning and no per-table check |
| SchemaValidator.Run | datawarehouse/validation.py:259-283 | the summary counts equal the lengths of the lists they summarise, and found plus missing equals expected |
| SchemaValidator.RunConforms | datawarehouse/validation.py:264 | valid iff the issue list is empty iff the snapshot conforms |
| SchemaValidator.RunSplitsNames | datawarehouse/validation.py:230-257 | each expected table and index lands in exactly one of found and missing, in declared order |
| SchemaValidator.Validate | datawarehouse/validation.py:217-283 | against the expected model, valid iff conforming, with 13 tables and 2 indexes split between found and missing |
| SchemaValidator.CheckCompatibility | datawarehouse/validation.py:541-555 | compatible iff the store could be read and conforms; an unreadable store is incompatible |
| SchemaProperties.FindingsClassified | datawarehouse/validation.py:217-283 | blocking kinds only ever land among the issues, advisory kinds among the warnings |
| SchemaProperties.IssuesAreBlocking | datawarehouse/validation.py:217-283 | every issue is of a blocking kind |
| SchemaProperties.WarningsAreAdvisory | datawarehouse/validation.py:217-283 | every warning is of an advisory kind |
| SchemaProperties.MissingTableReportedOnce | datawarehouse/validation.py:230-241 | each unlisted expected table yields exactly one missing-table issue |
| SchemaProperties.MissingTableHasNoColumnFindings | datawarehouse/validation.py:230-241 | an unlisted table gets no column, primary-key, type or extra-column finding |
| SchemaProperties.ForeignKeysDisabledOnce | datawarehouse/validation.py:379-384 | enforcement off: exactly one disabled warning and no missing-foreign-key issue |
| SchemaProperties.ForeignKeyIssuesExact | datawarehouse/validation.py:386-407 | enforcement on: a missing-foreign-key issue iff a declared key is absent from a successfully listed table |
| SchemaProperties.MissingTableKeysReported | datawarehouse/validation.py:386-407 | for a snapshot whose key listings belong to existing tables, with enforcement on, a missing expected table is reported and so is each key it declares |
| SchemaProperties.WarningsNeverBlock | datawarehouse/validation.py:247-264 | validity does not depend on the indexes present or on the index list |
| SchemaProperties.ExactStoreIsClean | datawarehouse/validation.py:217-283 | a store listing every expected table with exactly its columns (upper-cased type and key flag), its foreign keys and the recommended indexes, with enforcement on, is valid with no issue and no warning |
| SchemaProperties.ExactStorePassesValidation | datawarehouse/validation.py:195-283 | the same for the thirteen expected tables and two indexes |
| SchemaProperties.LookupIgnoresNotNull | datawarehouse/validation.py:307-313 | listings differing only in not-null flags look the same columns up |
| SchemaProperties.NotNullNeverCompared | datawarehouse/validation.py:328-349 | the not-null flag never affects column findings or extra columns |
| ValidationReport.Render | datawarehouse/validation.py:437-510 | the report opens with the banner, the summary and the verdict and closes with the rule |
| ValidationReport.SectionPresentIffNonEmpty | datawarehouse/validation.py:466-506 | a section appears iff its list is non-empty |
| ValidationReport.RenderInHeadingOrder | datawarehouse/validation.py:466-506 | sections come in the fixed order issues, warnings, found and missing tables, found and missing indexes |
| ValidationReport.SectionContents | datawarehouse/validation.py:466-506 | issues and warnings keep their order; table and index names are sorted |
| ValidationReport.SortedNamesSorted | datawarehouse/validation.py:480-506 | the name lists are ordered in text order and keep their elements |
| CommitHash.CheckCommitHash | datawarehouse/core_lib_api.py:12-19 | accepted iff exactly 40 characters from `[0-9a-f]`; otherwise a validation error on `commit_hash` |
| CommitHash.CheckCommitHashExamples | datawarehouse/algorithm_api.py:12-19 | 40 lower-case hex digits pass; upper case and 39 characters fail |
| CommitHash.AsWrittenAcceptsTrailingNewline | datawarehouse/core_lib_api.py:14 | the pattern as written accepts exactly the valid hashes plus a valid hash followed by one newline |
| CommitHash.AsWrittenCounterexample | datawarehouse/algorithm_api.py:14 | 40 hex digits and a newline pass the pattern but are not a valid hash |
| Versions.CreateVersion | datawarehouse/core_lib_api.py:22-74 | succeeds iff the hash is valid, unused and the base resolves; the format is checked first, then uniqueness, then the base; every error leaves the table unchanged; success appends under an id above all others |
| Versions.CreateVersionRejectsTrailingNewline | datawarehouse/core_lib_api.py:43-46 | registration runs the corrected hash rule: forty hex digits and a newline pass the pattern as written but are rejected with the table unchanged |
| Versions.CreateVersionKeepsInvariants | datawarehouse/algorithm_api.py:22-74 | registering keeps ids and hashes unique and every base resolving |
| Versions.GetVersion | datawarehouse/core_lib_api.py:77-111 | the stored row under that id, or not-found naming the table |
| Versions.FindByVersion | datawarehouse/core_lib_api.py:178-202 | none iff no row has that version; otherwise the first such row |
| Versions.FindByCommitHash | datawarehouse/core_lib_api.py:205-229 | none iff no row has that hash; otherwise a stored row carrying it |
| Versions.FindByCommitHashStored | datawarehouse/algorithm_api.py:205-229 | in a keyed table, looking up a stored row's hash returns that row |
| Versions.CreatedIsRetrievable | datawarehouse/core_lib_api.py:22-111 | a registered version reads back by id and by hash |
| Versions.LatestVersion | datawarehouse/algorithm_api.py:366-389 | none iff the table is empty; otherwise a stored row with the largest id |
| Versions.CreatedIsLatest | datawarehouse/algorithm_api.py:366-389 | the newest registration is the latest version |
| VersionChain.History | datawarehouse/core_lib_api.py:138-175 | the history is the chain from the id read oldest first: empty iff the id names no row, ending with the start row, each element based on the one before |
| VersionChain.OldestFirst | datawarehouse/algorithm_api.py:152-175 | reversing a chain gives the oldest-first history |
| VersionChain.ChainUnique | datawarehouse/core_lib_api.py:156-172 | the chain from an id is unique |
| VersionChain.HistoryOfThreeLinks | datawarehouse/algorithm_api.py:152-175 | chain A <- B <- C gives history(C) = [A, B, C] |
| VersionChain.HistoryOfMissingId | datawarehouse/core_lib_api.py:167-169 | the history of a missing id is empty |
| VersionChain.HistoryStopsAtDanglingBase | datawarehouse/core_lib_api.py:167-169 | a base id naming no row ends the history after the start row, without error |
| VersionChain.SelfBaseNeverEnds | datawarehouse/core_lib_api.py:156-172 | a row based on itself starts a walk that never ends |
| Tags.CheckInterval | datawarehouse/tag_api.py:31-43 | passes iff `0 <= start < end`; the `start >= end` error comes before the `start < 0` error |
| Tags.IntervalErrorFirst | datawarehouse/tag_api.py:31-43 | a pair violating both rules reports the interval error |
| Tags.CreateTag | datawarehouse/tag_api.py:11-66 | succeeds iff the interval is valid and the video and task exist; validation precedes the foreign keys; nothing is inserted on an error |
| Tags.GetTag | datawarehouse/tag_api.py:69-102 | the stored tag, or not-found |
| Tags.CreatedTagIsStored | datawarehouse/tag_api.py:11-102 | a created tag reads back as given |
| Tags.UpdateTag | datawarehouse/tag_api.py:208-289 | not-found on a missing id; the merged interval is validated; no field supplied means no write; a supplied video or task that does not exist is a constraint error on `tag_table`; on success only that tag is replaced by the merge |
| Tags.UpdateValidatesMergedInterval | datawarehouse/tag_api.py:231-247 | unspecified start and end are taken from the stored tag before validation |
| Tags.UpdateTagChangesOnlyThatTag | datawarehouse/tag_api.py:250-277 | supplied fields are set, the others keep their stored values, every other tag is unchanged |
| Tags.UpdateWithNoFieldsIsNoOp | datawarehouse/tag_api.py:269-270 | with every field absent the table is unchanged |
| Tags.DeleteTag | datawarehouse/tag_api.py:292-315 | succeeds iff the tag exists, which then is gone; not-found otherwise |
| Tags.DeleteTagRemovesOnlyThatTag | datawarehouse/tag_api.py:304-315 | the deleted tag is not found afterwards; every other tag is where it was |
| Tags.VideoTags | datawarehouse/tag_api.py:105-130 | the video's tags whose task exists, with starts in ascending order |
| Tags.VideoTagsExactly | datawarehouse/tag_api.py:118-126 | a tag is listed iff it belongs to the video and its task exists; starts never decrease |
| Analysis.CheckTimestamp | datawarehouse/analysis_api.py:26-39 | a missing or empty timestamp passes; any other must parse; else a validation error on `analysis_timestamp` |
| Analysis.CreateAnalysisResult | datawarehouse/analysis_api.py:42-77 | succeeds iff the timestamp passes and the evaluation result exists; unchanged on error |
| Analysis.GetAnalysisResult | datawarehouse/analysis_api.py:80-98 | the stored row, or not-found |
| Analysis.ListAnalysisResults | datawarehouse/analysis_api.py:101-126 | the rows of that evaluation result, or all, each as often as it is stored, in descending id order |
| Analysis.CreateProblem | datawarehouse/analysis_api.py:129-158 | succeeds iff the analysis result exists; unchanged on error |
| Analysis.GetProblem | datawarehouse/analysis_api.py:161-179 | the stored problem, or not-found |
| Analysis.ListProblems | datawarehouse/analysis_api.py:182-207 | the problems of that analysis result, or all, each as often as it is stored, in descending id order |
| Analysis.ListProblemsUnfiltered | datawarehouse/analysis_api.py:182-207 | with no filter the listing is a permutation of the stored problems |
| Analysis.CheckAnalysisData | datawarehouse/analysis_api.py:225-236 | passes iff the flag is 0 or 1 and a flag of 1 comes with a problem id other than none or 0; the flag error comes first |
| Analysis.NotAProblemPassesAnyProblemId | datawarehouse/analysis_api.py:225-236 | a flag of 0 passes whatever the problem id |
| Analysis.CreateAnalysisData | datawarehouse/analysis_api.py:210-270 | succeeds iff the guard passes and every reference exists; the guard precedes any write |
| Analysis.CreateAnalysisDataKeepsValid | datawarehouse/analysis_api.py:210-270 | every stored flagged row names an existing problem |
| Analysis.ListAnalysisData | datawarehouse/analysis_api.py:273-304 | the rows meeting every supplied filter, each as often as stored, in descending id order |
| Analysis.ListAnalysisDataFilters | datawarehouse/analysis_api.py:279-297 | filters are conjunctive and with none every row is listed |
| Evaluation.CheckRates | datawarehouse/evaluation_api.py:27-38 | passes iff the true-positive rate lies in [0, 1] and the false-positive rate is absent or not negative |
| Evaluation.CreateEvaluationResult | datawarehouse/evaluation_api.py:11-67 | succeeds iff the rates pass and the algorithm exists; unchanged on error |
| Evaluation.GetEvaluationResult | datawarehouse/evaluation_api.py:70-92 | the stored row, or not-found |
| Evaluation.ListEvaluationResults | datawarehouse/evaluation_api.py:95-124 | the rows meeting every supplied filter, each as often as stored, in descending id order |
| Evaluation.ListEvaluationResultsFilters | datawarehouse/evaluation_api.py:106-121 | filters are conjunctive and with none every row is listed |
| Evaluation.CheckCounts | datawarehouse/evaluation_api.py:141-148 | passes iff `0 <= correct <= total`; the negative-count error comes first |
| Evaluation.CreateEvaluationData | datawarehouse/evaluation_api.py:127-186 | succeeds iff the counts pass and both references exist; unchanged on error |
| Evaluation.CreateEvaluationDataKeepsCounts | datawarehouse/evaluation_api.py:141-148 | every stored row keeps `0 <= correct <= total` |
| Evaluation.ListEvaluationData | datawarehouse/evaluation_api.py:189-207 | the rows of that evaluation result whose algorithm output exists, each as often as it is stored, in ascending id order |
| Evaluation.ListEvaluationDataKeepsAll | datawarehouse/evaluation_api.py:189-207 | when every row belongs to the result and has an existing output, nothing is dropped or repeated: the listing is as long as the table |
| Evaluation.GetEvaluationOverview | datawarehouse/evaluation_api.py:210-245 | not-found iff the result is missing; the totals are the sums over that result's rows; accuracy is total correct divided by total items, and 0 when there are no items; the result's own fields are copied |
| Evaluation.NoRowsNoTotals | datawarehouse/evaluation_api.py:220-233 | with no rows for the result both totals and the accuracy are 0 |
| Evaluation.SumsOrdered | datawarehouse/evaluation_api.py:220-231 | if every row has `correct <= total`, then `0 <= total_correct <= total_items` |
| Evaluation.AccuracyInUnitInterval | datawarehouse/evaluation_api.py:233 | for `0 <= c <= n` the accuracy lies in [0, 1] |
| Evaluation.OverviewBounded | datawarehouse/evaluation_api.py:210-245 | over rows written by the guard, the overview's accuracy lies in [0, 1] |
| Evaluation.CreatedDataAddsToTotals | datawarehouse/evaluation_api.py:127-231 | a new data row adds its counts to its result's totals and to no other |
| IntegrityAudit.FrameViolations | datawarehouse/analytics_api.py:160-168 | a tag is reported iff it is stored with `start >= end` |
| IntegrityAudit.FrameViolationsKeepCopies | datawarehouse/analytics_api.py:160-168 | each violating tag is reported as often as it is stored |
| IntegrityAudit.FrameViolationsEmptyIff | datawarehouse/analytics_api.py:160-168 | nothing is reported iff every interval is non-empty |
| IntegrityAudit.FrameViolationsExample | datawarehouse/analytics_api.py:160-168 | start 10 / end 5 is reported, start 5 / end 10 is not |
| IntegrityAudit.OrphanCount | datawarehouse/analytics_api.py:171-191 | the count is 0 iff every tag's video (task) exists, and never exceeds the number of tags |
| IntegrityAudit.OrphanCountIsSelection | datawarehouse/analytics_api.py:171-191 | the count equals the number of tags whose reference names no parent row |
| IntegrityAudit.CreateTagAddsNoOrphans | datawarehouse/tag_api.py:11-66 | creating a tag never changes either orphan count |
| IntegrityAudit.DuplicateHashes | datawarehouse/analytics_api.py:194-217 | every hash stored more than once is listed, exactly once, with its row count; nothing else is listed |
| IntegrityAudit.NoDuplicatesIffDistinct | datawarehouse/analytics_api.py:194-217 | the list is empty iff no two rows share a hash |
| IntegrityAudit.DuplicateHashesExample | datawarehouse/analytics_api.py:194-217 | two rows under one hash and one under another report only the first, with count 2 |
| IntegrityAudit.CheckDataIntegrity | datawarehouse/analytics_api.py:134-219 | the audit is clean iff every interval is non-empty, every tag's video and task exist and neither registry repeats a hash |
| IntegrityAudit.RegistriesAuditedIndependently | datawarehouse/analytics_api.py:194-217 | each registry's duplicate list depends on that registry alone |
| IntegrityAudit.CreateTagKeepsAuditClean | datawarehouse/tag_api.py:11-66 | creating a tag keeps a clean audit clean |
| IntegrityAudit.UpdateTagKeepsAuditClean | datawarehouse/tag_api.py:208-289 | updating a tag keeps a clean audit clean |
| IntegrityAudit.DeleteTagKeepsAuditClean | datawarehouse/tag_api.py:292-315 | deleting a tag keeps a clean audit clean |
| IntegrityAudit.CreateVersionKeepsHashesDistinct | datawarehouse/core_lib_api.py:22-74 | a registry built by registrations never shows a duplicate hash |
| Analytics.GetVersionHistory | datawarehouse/analytics_api.py:73-98 | the two registry names dispatch to that registry's history; any other name is a constraint error naming it |
| Analytics.TableStatistics | datawarehouse/analytics_api.py:101-131 | one entry per table not `LIKE 'sqlite_%'`, holding that table's row count |
| Analytics.ExpectedTablesAreCounted | datawarehouse/analytics_api.py:115-131 | every expected table present in the store gets its count |
| Analytics.TableStatisticsSkipsInternal | datawarehouse/analytics_api.py:115-121 | internal names are skipped whatever their case; user tables are kept |
| Analytics.Joined | datawarehouse/analytics_api.py:53-63 | a joined row exists exactly for each tag whose task, video and subject exist, with `frame_count = end - start` |
| Analytics.SearchTaskExecutions | datawarehouse/analytics_api.py:11-70 | the joined rows meeting every supplied filter, each as often as joined, ordered by date, task set, task id and start |
| Analytics.SearchFindsExactlyTheMatches | datawarehouse/analytics_api.py:34-67 | a row is returned iff it is a stored tag's joined row and meets all supplied filters; its frame count is `end - start` |
| Analytics.SearchWithoutFilterReturnsAllJoined | datawarehouse/analytics_api.py:34-67 | with no filter every joined row is returned |

## Left out

- Versions.CreateVersion: runs the corrected commit-hash rule. It rejects forty hex digits followed by a newline, which the source's pattern accepts and stores (see Findings and `Versions.CreateVersionRejectsTrailingNewline`).
- TypeCompat.Upper: maps only the ASCII letters a-z. Python's `str.upper` also maps other letters, sometimes changing the length ('ı' to 'I', 'ß' to 'SS'). So a declared type such as `ınteger`, which the source reads as `INTEGER`, draws a type-mismatch warning in the model.
- SchemaValidator.ExtraColumns: the source collects the extra columns in a Python set, whose iteration order varies between runs. The model lists them in first-listed order and promises only which names appear, each once.
- Connections, SQL text, PRAGMA execution and commit/rollback are I/O. A write is modelled as "table updated or unchanged".
- `PRAGMA foreign_key_check` in the audit is SQLite's own engine behaviour. The foreign keys are modelled where writes enforce them.
- `datetime.strptime` in the timestamp guard is a library call. The model takes it as the `parses` parameter and models only the missing/empty case itself.
- Floating point: rates and accuracy are exact reals. NaN, infinities and rounding are not modelled.
- `get_tag_duration`, `get_performance_metrics` and `get_processing_pipeline_summary` return float-valued or join-only outputs and are not modelled.
- The task, subject and video write paths are pass-through CRUD and are not modelled. So are the other `list_*` and `get_*` functions of the registries and outputs.
- The validator's `table_validation_error` issue (`datawarehouse/validation.py:365-370`) and its `foreign_key_check_error` warning (`datawarehouse/validation.py:416-420`) are not modelled. Only an unexpected engine failure reaches them. The per-table foreign-key listing failure is modelled, as `FkValidationError`.
- The write paths' generic `IntegrityError` and `sqlite3.Error` branches, NOT NULL violations among them, are not modelled. Only an unexpected engine failure reaches them.
- Message texts are not modelled. Errors carry their kind and the table or field they name.
- VersionChain.History: the source has no cycle guard, so on a cyclic chain it never returns. The method requires a chain that ends, and `SelfBaseNeverEnds` shows one the insert accepts that does not.
- Analytics.GetVersionHistory: requires a chain that ends for the selected registry, for the same reason.
- Tables.NextId: `AUTOINCREMENT` can skip ids after deletions. The model gives the next id as one more than the largest stored. The self-referencing base version of `Versions.BaseResolves` depends on that exact value: after the newest row has been deleted, the source accepts a different self-referencing base id than the model does.
- Versions.FindByVersion: the query has no `ORDER BY`, so the model takes the first row in storage order.
- IntegrityAudit.FrameViolations: the query has no `ORDER BY`, so the model lists in storage order.
- IntegrityAudit.DuplicateHashes: the order of the groups is not promised by the query. The model lists them by first occurrence and states only which groups appear.
- IntegrityAudit.OrphanCount: tag references are modelled as integers, so a NULL video or task id is not modelled. `create_tag` can store one, and the audit's LEFT JOIN counts it as an orphan.
- Analytics.TableStatistics: `rowCount` stands for `SELECT COUNT(*)` on each table. The order of the dictionary's keys is not modelled.
- Analytics.SearchTaskExecutions: ties in the `ORDER BY` are kept in join order, which is a stable sort. SQLite does not promise an order among ties. The descriptive columns (names, paths, lengths) are carried along unchanged and are not modelled.
- Tags.VideoTags: ties in start are kept in storage order, which SQLite does not promise.

## Findings

| source | as written | input that shows it | evidently intended | confidence | as-written member | corrected member |
|---|---|---|---|---|---|---|
| datawarehouse/core_lib_api.py:14 | `re.match(r'^[a-f0-9]{40}$', h)`, where `$` also matches just before a final newline | 40 hex digits followed by `"\n"` passes | exactly 40 characters from `[0-9a-f]` | not executed | CommitHash.AsWrittenCounterexample | CommitHash.CheckCommitHash |
| datawarehouse/algorithm_api.py:14 | the same pattern in the algorithm registry | 40 hex digits followed by `"\n"` passes | exactly 40 characters from `[0-9a-f]` | not executed | CommitHash.AsWrittenAcceptsTrailingNewline | CommitHash.CheckCommitHash |
