# ADB storage engine, modelled in Dafny

ADB is a small document database written in Python. Its core is the `ADB` class in `adb.py`. The class keeps three maps in memory:

- `data`: table name to a list of records;
- `schemas`: table name to the field constraints;
- `indexes`: table name to column to value to a list of record positions.

On top of these maps it offers:

- table management: create, drop, rename, truncate, alter, schema get/set;
- record operations: insert, select, update, delete, count;
- position-based secondary indexes;
- a condition matcher with `$gt`, `$lt`, `$gte`, `$lte` and `$like`;
- a `transaction()` context that rolls records back from a snapshot;
- an aggregation pipeline with `$match` and `$group`;
- analysis, optimisation and query-plan helpers;
- bulk import;
- a tiny SQL-like front end;
- persistence to one JSON file, with a save throttle and a reader for a legacy format.

Next to it, `config.py` holds `ADBConfig`, a nested-dictionary configuration with defaults. It supports dotted-key `get` and `set`, a recursive merge of a configuration file, and validation.

The model is split into one module per concern:

| file | module | what it holds |
|---|---|---|
| values.dfy | Values | field values (null, bool, int, str), Python's ordering and `str()` on them, the `Result`/`Option`/`Error` types |
| matcher.dfy | Matcher | `_match_condition`, filtering a table by a condition, and list slicing for `limit`/`offset` |
| schema.dfy | Schemas | `_validate_record`, `_validate_table_name`, and schema edits done by `alter_table` |
| indexes.dfy | Indexes | the index that `create_index` builds, its meaning, index maintenance on insert, and the rebuild |
| aggregate.dfy | Aggregation | the `$group` and `$match` stages and the pipeline |
| persistence.dfy | Persistence | the save throttle, the two file formats `load_database` reads, and what a JSON round trip does to index keys |
| sql_like.dfy | SqlLike | the string handling of `execute_sql_like` |
| engine.dfy | Engine | the `Database` class, with one method per public operation |
| config.dfy | Config | the `Settings` class, for `ADBConfig` |

The `Engine.Database` fields `data`, `schemas` and `indexes` are updated in place by its methods, as in the source. Each method states its whole new state and its result. Each error the source raises is an `Err` with the matching `Error` constructor:

- `ValidationError` becomes `Validation`;
- `TableNotFoundError` becomes `TableNotFound`;
- a plain `ADBError` becomes `EngineError`;
- a Python `TypeError` from comparing unlike values becomes `TypeMismatch`.

The clock, the creation time stamp and whether a disk write succeeds come in as an `Io` parameter. The file itself is a field (`file`) that a successful save overwrites with the document it would hold.

Where the code does something a reader may not expect, the model follows the code:

- Saves inside a transaction are not suppressed. Every save made while the transaction flag is set bypasses the one-second throttle and writes (`adb.py:188`). A transaction with several writes therefore writes several times, not once.
- `drop_table` is defined twice. The second definition (`adb.py:519-529`) is the one in force: a missing table gives `False` rather than `TableNotFoundError`.
- A rollback restores only the records. The indexes and schemas keep the changes made by the failed body.
- `optimize_table` calls `_rebuild_indexes` before it renumbers `_id`. Even a rebuild that worked would therefore leave an index on `_id` listing the old numbers, so `Engine.Database.OptimizeTable` promises fresh indexes only for the other columns.
- `alter_table` `add_column` fills in a default value but does not touch the indexes, so an index on the added column no longer reflects the table. `Engine.Database.AlterTable` promises the other columns only.
- An insert assigns `_id` = record count + 1, so an insert after a delete can repeat an `_id` that is still in use.
- `execute_sql_like` upper-cases the whole query, table name included. A table whose name holds a lower-case letter is therefore always counted as missing (`SqlLike.CountedTableIsUpperCase`).

One behaviour is corrected rather than followed. `_rebuild_indexes` (`adb.py:603-609`) does nothing, because `create_index` refuses a column that already has an index (`adb.py:1003-1004`). `update`, `delete` and `optimize_table` call it (`adb.py:553`, `adb.py:578`, `adb.py:823`). In the model they call the corrected rebuild, `Engine.Database.RebuildIndexes`. The behaviour as written is kept in `Engine.Database.RebuildIndexesAsWritten` and `Indexes.StaleIndexAfterDelete`. "Findings" gives the details, and "Left out" names the contracts that differ from the source because of the substitution.

## Model

| member | source | states |
|---|---|---|
| Values.StrCompare | adb.py:370-377 | comparing two strings gives -1, 0 or 1 |
| Values.StrCompareZeroIffEqual | adb.py:370-377 | two strings compare equal exactly when they are the same string |
| Values.StrCompareAntisymmetric | adb.py:370-377 | swapping the operands negates the comparison |
| Values.StrCompareTransitive | adb.py:370-377 | string ordering is transitive |
| Values.Compare | adb.py:370-377 | an ordering exists exactly between two numbers (bool counts as a number) or two strings; any other pair raises TypeError |
| Values.CompareZeroOnEqual | adb.py:370-377 | an orderable value compares equal to itself |
| Values.NatToDecimal | adb.py:379 | `str()` of a natural number is a non-empty string of decimal digits |
| Values.DecimalRoundTrip | adb.py:379 | reading back the decimal text of a number gives the number |
| Values.Lower | adb.py:379 | lower-casing keeps the length and maps each character on its own |
| Values.LowerIdempotent | adb.py:379 | lower-casing twice is lower-casing once |
| Values.PyStr | adb.py:379 | `str()` of an integer reads back as the integer: its digits for a non-negative one, a minus sign followed by the digits of its magnitude for a negative one |
| Values.ContainsIffOccurs | adb.py:379 | the substring test `in` holds exactly when the pattern occurs at some offset |
| Matcher.CheckOps | adb.py:367-380 | the operator tests on a present field raise only TypeError, and only when a given bound does not order with the field's value; a pass means every given bound is passed and the `$like` pattern, if any, occurs |
| Matcher.MatchClause | adb.py:367-383 | one condition entry raises only TypeError, and only for an operator entry on a present field; an operator entry passes on a missing field; a literal entry never raises and holds exactly when the field is present with that value |
| Matcher.MatchClauseMeaning | adb.py:367-383 | one condition entry either raises TypeError or gives a verdict that agrees with the logical reading of the entry; an entry over orderable operands never raises |
| Matcher.Match | adb.py:365-384 | the matcher raises only TypeError; otherwise it says whether the record satisfies every entry of the condition; it cannot raise when all comparisons are between like types |
| Matcher.MatchAppend | adb.py:367-384 | entries are checked in order and the first failing or raising entry decides |
| Matcher.EqualityNeedsField | adb.py:381-383 | a literal entry never matches a record that lacks the field |
| Matcher.OperatorsIgnoreMissingField | adb.py:368-380 | an operator entry always passes on a record that lacks the field |
| Matcher.LikeIgnoresCase | adb.py:378-380 | `$like` does not depend on the case of the pattern or of a string value |
| Matcher.LiteralsNeverRaise | adb.py:381-383 | a condition made only of literal values never raises |
| Matcher.Filter | adb.py:358-361 | filtering a table either raises TypeError or yields exactly the records kept by the condition, in table order |
| Matcher.KeptMembers | adb.py:358-361 | a record is kept exactly when it is in the table and its verdict is the one wanted |
| Matcher.KeptPartition | adb.py:569-574 | matching and non-matching records together are as many as the table holds |
| Matcher.KeptAll | adb.py:569-574 | when every record is kept, the result is the table itself |
| Matcher.KeptEmptyCondition | adb.py:367-384 | the empty condition keeps every record |
| Matcher.KeptAppend | adb.py:358-361 | filtering distributes over concatenation |
| Matcher.PySlice | adb.py:345 | a Python slice is a contiguous window of the list |
| Matcher.Page | adb.py:345-363 | `records[offset:offset + limit if limit else None]` yields no more records than the list, all from the list, and at most `limit` of them for a non-negative offset and a positive limit |
| Matcher.PageWindow | adb.py:345 | `offset`/`limit` paging gives the records from `offset` on, at most `limit` of them when a positive limit is given |
| Schemas.CheckField | adb.py:259-272 | a field passes when it is present if required, has the declared type and is within `max_length` |
| Schemas.FirstViolation | adb.py:259-272 | no violation is reported exactly when every field conforms; otherwise the reported field is the first one in schema order that fails |
| Schemas.ValidateRecord | adb.py:253-274 | a record is accepted exactly when the table has no schema or every field of its schema conforms |
| Schemas.StripSeparators | adb.py:146 | removing `_` and `-` keeps exactly the other characters |
| Schemas.ValidTableName | adb.py:140-147 | a table name is valid exactly when it has 1 to 64 characters, all alphanumeric, `_` or `-`, and at least one alphanumeric |
| Schemas.Replace | adb.py:659 | replacing a field's constraint leaves every other field as it was |
| Schemas.SchemaRemove | adb.py:669-670 | after removal the field no longer occurs |
| Schemas.ConstraintOfReplace | adb.py:659 | after a replacement, looking up the field gives the new constraint and other lookups are unchanged |
| Schemas.ConstraintOfAppend | adb.py:659 | adding a new field makes it visible and changes no other lookup |
| Schemas.SchemaPutLookup | adb.py:659 | after `schema[column] = def` the column maps to the new definition and no other lookup changes |
| Schemas.SchemaRemoveLookup | adb.py:669-670 | after `del schema[column]` the column is absent and no other lookup changes |
| Indexes.AddPosition | adb.py:313-317 | adding a position appends it to that value's list and leaves every other value's list alone |
| Indexes.IndexForSound | adb.py:1008-1013 | every position listed under a value lies in the table and holds that value |
| Indexes.IndexForComplete | adb.py:1008-1013 | every record holding a value is listed under it |
| Indexes.IndexForAscending | adb.py:1008-1013 | position lists are strictly ascending |
| Indexes.IndexForKeys | adb.py:1008-1013 | a value is a key of the index exactly when some record holds it |
| Indexes.Pick | adb.py:354 | looking positions up yields at most one record per position, all from the table |
| Indexes.PickAppend | adb.py:354 | a position beyond the table is skipped |
| Indexes.IndexPathIsScan | adb.py:349-361 | through an index built from the current records, the index path returns exactly what a full scan returns |
| Indexes.AppendToIndexes | adb.py:309-317 | insert maintenance keeps the set of indexed columns |
| Indexes.InsertKeepsFresh | adb.py:304-306 | after an insert, indexes that reflected the table still do |
| Indexes.FreshIndexPathIsScan | adb.py:349-361 | whenever the stored index is fresh, the indexed select agrees with the full scan |
| Indexes.IndexForSameColumn | adb.py:1008-1013 | the index on a column depends only on that column's values |
| Indexes.Rebuild | adb.py:603-609 | rebuilding keeps the indexed columns and makes every index fresh |
| Indexes.BuildIndex | adb.py:1007-1013 | the loop of `create_index` builds the index of the column |
| Indexes.StaleIndexAfterDelete | adb.py:569-578 | with `_rebuild_indexes` as written, after deleting the first of three records an index lookup returns a wrong record that the scan does not return |
| Aggregation.Groups | adb.py:474-480 | the grouping loop yields no more groups than records, and none exactly when there are no records |
| Aggregation.FindGroup | adb.py:478 | a group lookup finds the group with that key, or none exists |
| Aggregation.GroupRecords | adb.py:482 | one output record `{_id: key, count: n}` per group, in group order |
| Aggregation.SumCountsBump | adb.py:478-480 | counting one record adds one to the total |
| Aggregation.GroupsMeaning | adb.py:473-482 | keys are distinct, each count is the number of records with that key and is positive, absent keys occur nowhere, and counts add up to the number of records |
| Aggregation.GroupsCover | adb.py:476-480 | a key has a group exactly when some record carries it |
| Aggregation.FirstIndexOfPresent | adb.py:476-480 | a key has a first occurrence exactly when it occurs |
| Aggregation.GroupsInFirstOccurrenceOrder | adb.py:474-482 | groups come out in the order in which their keys first occur in the input |
| Aggregation.GroupStage | adb.py:473-482 | the `$group` loop produces the group records of its input |
| Aggregation.RunPipeline | adb.py:470-489 | a pipeline fails only with TypeError |
| Aggregation.RunPipelineAppend | adb.py:470-489 | running two pipelines one after the other is running their concatenation |
| Aggregation.MatchStage | adb.py:484-487 | a `$match` stage keeps exactly the matching records, in order |
| Aggregation.GroupStageCounts | adb.py:471-482 | a `$group` stage cannot fail and its counts add up to the input size |
| Aggregation.EmptyStageIgnored | adb.py:470-487 | a stage with neither key is ignored |
| Aggregation.GroupExample | adb.py:476-480 | a missing field groups under the string "null", after the keys seen before it |
| Persistence.SaveDecision | adb.py:187-214 | a save is skipped only outside a transaction while fewer than the interval's seconds have passed since the last write; it counts as written only when the write succeeds |
| Persistence.SaveReportsOnlyWriteFailure | adb.py:185-214 | `save_database` returns false exactly when it tried to write and the write failed |
| Persistence.TransactionSavesAlwaysWrite | adb.py:188 | inside a transaction a save is never skipped |
| Persistence.ThrottleWindow | adb.py:187-189 | outside a transaction a save is skipped exactly while fewer than the interval's seconds have passed since the last write |
| Persistence.Wrapped | adb.py:196-202 | the document `save_database` writes has exactly the keys version, created_at, tables, schemas and indexes, holding the three maps |
| Persistence.Load | adb.py:159-183 | a file without a `tables` key loads with no schemas and no indexes |
| Persistence.LoadWrapped | adb.py:166-169 | loading the document that `save_database` writes gives back the saved maps |
| Persistence.LoadLegacy | adb.py:170-173 | a legacy file loads as the table map, with empty schemas and indexes |
| Persistence.LegacyTableNamedTables | adb.py:166 | a legacy file with a table named `tables` is taken for the new format and does not load as its tables |
| Persistence.ReloadIndex | adb.py:207 | an index reloaded from the JSON file has only string keys, one per value the saved index had, written as JSON writes an object key |
| Persistence.StaleIndexAfterReload | adb.py:349-355 | after a save and a reload, the index on `age` no longer finds the record holding 20, which the full scan still returns |
| Persistence.Reindex | adb.py:603-609 | rebuilding every index from the loaded records keeps the tables, schemas and indexed columns and leaves every index fresh |
| Persistence.ReindexAfterReload | adb.py:164-169 | rebuilding after a reload gives the same indexes as rebuilding the saved state, whatever JSON did to the index keys |
| SqlLike.SpanLeft | adb.py:625 | leading white space is counted up to the first non-space character |
| SqlLike.SpanRight | adb.py:625 | trailing white space is counted back to the last non-space character |
| SqlLike.Strip | adb.py:625 | `strip()` removes white space at both ends only and leaves a text without white space unchanged |
| SqlLike.Upper | adb.py:625 | upper-casing keeps the length and maps each character on its own |
| SqlLike.AfterFirst | adb.py:628 | what follows a separator is a suffix of the text |
| SqlLike.UpTo | adb.py:628 | what precedes a separator is a prefix of the text |
| SqlLike.CountQueryTable | adb.py:627-628 | in a count query the table name is what follows the prefix's FROM, up to any further FROM |
| SqlLike.Parse | adb.py:625-636 | the query, stripped and upper-cased, is a count exactly when it starts with `SELECT COUNT(*) FROM`, with the table name the stripped text between that FROM and the next one; a table listing exactly when it starts with `SHOW TABLES` instead; otherwise unsupported, carrying the upper-cased query |
| SqlLike.NoLowerCaseKept | adb.py:625 | a text made of characters taken from an upper-cased text holds no lower-case letter |
| SqlLike.CountedTableIsUpperCase | adb.py:625-629 | every count query parses as a count, and its table name holds no lower-case letter |
| Engine.Stamped | adb.py:296-301 | the stored record is the given one plus `_created_at` and `_id` |
| Engine.Updated | adb.py:542-548 | an updated record takes the new values, keeps its other fields and gains `_updated_at` |
| Engine.UpdateRun | adb.py:538-549 | the update run keeps the table length and stops no later than its bound |
| Engine.UpdateRunRecords | adb.py:539-549 | records before the stopping point are updated exactly when they match; those after it are unchanged |
| Engine.UpdateRunCount | adb.py:538-549 | the count is the number of matching records processed; the run stops early only at a record that raises TypeError in the matcher or fails validation |
| Engine.UpdateRunMeaning | adb.py:538-549 | both of the above together |
| Engine.UpdateRunStays | adb.py:539-544 | once an update run has raised, later records are not touched |
| Engine.UpdateLoop | adb.py:538-549 | the loop of `update` computes the update run over the whole table |
| Engine.UpdateAllValid | adb.py:538-549 | when every comparison is well typed and every updated record is valid, every matching record is updated and the count is the number of matches |
| Engine.NoneKept | adb.py:551 | a zero count means no record matched |
| Engine.RebuildTable | adb.py:603-609 | the corrected rebuild keeps the tables with indexes and leaves the rebuilt table's indexes fresh |
| Engine.WithColumn | adb.py:662-664 | `add_column` gives a missing field the default and keeps every existing field |
| Engine.WithoutColumn | adb.py:673-675 | `drop_column` removes the field and keeps every other one |
| Engine.IndexedKeys | adb.py:856-860 | the indexes used are exactly the condition keys that have an index |
| Engine.EstimateMeaning | adb.py:856-865 | the row estimate is the position count of the last condition entry that is a literal on an indexed column, or the table size when there is none |
| Engine.EstimateIsExact | adb.py:862-865 | for a single literal entry on a fresh index, the row estimate is the exact number of matching records |
| Engine.AddRecord | adb.py:790-801 | accounting for a record adds its fields to the statistics columns |
| Engine.AddRecordColumn | adb.py:790-801 | for one column, a record fixes the type if the column is new, adds one null if its value is null, and adds its printed value otherwise |
| Engine.StatsColumns | adb.py:790-796 | a column is reported exactly when some record has it |
| Engine.StatsAt | adb.py:789-805 | the statistics of each column are its first seen type, its null count and its set of printed values |
| Engine.CollectStats | adb.py:789-805 | the loop of `analyze_table` computes those statistics for every column |
| Engine.NothingHeld | adb.py:792-796 | a column with no type recorded occurs in no record |
| Engine.FirstTypeMeaning | adb.py:792-794 | the reported type is the type name of the column's value in the first record that has it |
| Engine.CountsBound | adb.py:798-801 | nulls plus distinct values never exceed the records holding the column |
| Engine.PrintedMeaning | adb.py:801 | a text is among the distinct values exactly when some non-null value of the column prints as it |
| Engine.Database.constructor | adb.py:159-183 | a new engine holds what `load_database` reads from its file, with no transaction active |
| Engine.Database.SaveDatabase | adb.py:185-214 | a save changes no table, writes the three maps with the time stamp unless throttled, and reports false only on a failed write |
| Engine.Database.CreateTable | adb.py:216-239 | an invalid name raises ValidationError; an existing table gives false; otherwise an empty table with no indexes, and a schema only when a non-empty one is given |
| Engine.Database.DropTable | adb.py:519-529 | a missing table gives false; otherwise the table, its indexes and its schema are gone, and the result is the save's |
| Engine.Database.Insert | adb.py:276-317 | a missing table, a full table or an invalid record raise and change nothing; otherwise the stamped record is appended with `_id` = count + 1, every index of the table gains its position, and fresh indexes stay fresh |
| Engine.Database.Select | adb.py:319-363 | a missing table gives []; no condition pages the table; a single literal entry on an indexed column reads the index; anything else pages the full-scan result; whenever the indexes are fresh the answer is the full-scan answer |
| Engine.Database.Count | adb.py:588-601 | a missing table counts 0; no condition counts all records; otherwise the number of matching records, or TypeError |
| Engine.Database.ListTables | adb.py:584-586 | the names listed are exactly the tables |
| Engine.Database.ListIndexes | adb.py:1019-1030 | a missing table raises TableNotFoundError; otherwise the indexed columns of the table |
| Engine.Database.CreateIndex | adb.py:987-1017 | a missing table raises; an existing index gives false and changes nothing; otherwise the column's index is built from the current records, without saving |
| Engine.Database.DropIndex | adb.py:611-618 | an absent index gives false; otherwise only that index is removed, without saving |
| Engine.Database.RebuildIndexesAsWritten | adb.py:603-609 | `_rebuild_indexes` as written changes nothing, because `create_index` refuses every existing column |
| Engine.Database.RebuildIndexes | adb.py:603-609 | the corrected rebuild recomputes every index of the table from the current records and leaves the table fresh |
| Engine.Database.Update | adb.py:531-557 | a missing table or an empty condition raise; otherwise matching records are updated in order, and the first failure raises with the earlier updates kept; a positive count rebuilds the indexes (the corrected rebuild) and saves |
| Engine.Database.Delete | adb.py:559-582 | a missing table or an empty condition raise; otherwise exactly the non-matching records remain, the result is the number of matches, and a positive count rebuilds the indexes (the corrected rebuild) and saves |
| Engine.Database.BeginTransaction | adb.py:397-401 | a second transaction raises ADBError; otherwise the flag is set and the records are snapshotted |
| Engine.Database.EndTransaction | adb.py:406-412 | on failure the records return to the snapshot, while indexes and schemas stay; the flag and the snapshot are cleared |
| Engine.Database.Apply | adb.py:386-412 | one step of a transaction body: an insert raises for a missing table, a full table or an invalid record and otherwise appends the stamped record; an update raises for a missing table or an empty condition and otherwise leaves the records of the update run; a delete raises for a missing table, an empty condition or a TypeError, changing nothing, and otherwise keeps the non-matching records; `create_index` raises for a missing table, leaves the indexes as they were for a column already indexed, and otherwise builds a new index; a nested `transaction()` raises ADBError and caller code that raises changes nothing |
| Engine.Database.RunTransaction | adb.py:386-412 | a transaction cannot start inside another; a body that raises leaves the records as they were before; a body that opens a transaction or raises always fails; a body that completes is written out, unthrottled, when the write succeeds |
| Engine.Database.Aggregate | adb.py:447-489 | a missing table gives []; otherwise the pipeline's result over the table's records |
| Engine.Database.RenameTable | adb.py:683-711 | a missing source or an existing target gives false; otherwise records, indexes and schema move to the new name, and fresh indexes stay fresh |
| Engine.Database.TruncateTable | adb.py:713-733 | a missing table gives false; otherwise the table is emptied, each of its indexes emptied, and the indexes are fresh |
| Engine.Database.GetSchema | adb.py:735-745 | the table's schema, or none |
| Engine.Database.SetSchema | adb.py:747-762 | a missing table gives false; otherwise the schema is replaced and `get_schema` returns it |
| Engine.Database.AlterTable | adb.py:638-681 | a missing table gives false; `add_column` fills the default into records without the column and records the definition in an existing schema; `drop_column` removes the column from every record, from the schema and from the indexes; other actions change nothing but still save; indexes on other columns stay fresh |
| Engine.Database.OptimizeTable | adb.py:809-829 | a missing table gives false; otherwise the indexes are rebuilt (the corrected rebuild), then every `_id` becomes its position plus one; indexes on columns other than `_id` are fresh |
| Engine.Database.ExplainQuery | adb.py:831-867 | the plan names the table and the condition; it is an index scan exactly when some condition key has an index; the indexes used are exactly those keys; for one literal entry on a fresh index the row estimate is exact |
| Engine.Database.AnalyzeTable | adb.py:764-807 | a missing table gives `{}`; an empty one only a zero count; otherwise the record count and, for every column that occurs, its first type, its null count and its number of distinct printed values |
| Engine.Database.ImportRecord | adb.py:936-960 | in insert mode the table grows by one exactly when the record is imported |
| Engine.Database.ImportData | adb.py:916-965 | a missing table is reported; an already active transaction reports `transaction_error` with nothing done; otherwise every record counts as imported or as an error, none as skipped, and in insert mode the table grows by the number imported |
| Engine.Database.ExecuteSqlLike | adb.py:620-636 | a count query gives the row count of the upper-cased table name, 0 when it does not exist; `SHOW TABLES` lists the tables; anything else raises ADBError |
| Config.SplitDots | config.py:155 | splitting on dots gives at least one piece, and no piece contains a dot |
| Config.SplitJoin | config.py:155 | joining the pieces with dots gives the key back |
| Config.JoinSplit | config.py:155 | splitting the dotted join of dot-free pieces gives the pieces back |
| Config.DotFree | config.py:155 | a key without dots is a single piece |
| Config.LookupLastStep | config.py:155-164 | a dotted key reaches the entry its last piece names in the table its other pieces reach |
| Config.SetPath | config.py:174-182 | a failed set raises TypeError and needs a key of at least two pieces; a successful one gives a table with the old top-level keys plus the key's first piece, every other top-level entry unchanged |
| Config.SetPathFails | config.py:174-182 | setting fails, with TypeError, exactly when an existing entry on the path is a value rather than a table |
| Config.EmptyBlocksNothing | config.py:177-180 | setting into an empty table never fails |
| Config.GetAfterSet | config.py:144-182 | after a successful set, `get` of the same key returns the value set |
| Config.SetKeepsOtherPaths | config.py:144-182 | a set does not change `get` of any key that branches off from the key set |
| Config.MissingStaysMissing | config.py:158-162 | nothing is found in an empty table |
| Config.Merge | config.py:136-142 | merging two tables gives a table with the keys of both; any other merge yields the override |
| Config.MergeEntries | config.py:138-142 | a key only in the base is kept; a key only in the override or whose override is a value takes the override |
| Config.MergeOverrideWins | config.py:136-142 | every value the override file sets is what `get` returns after the merge |
| Config.MergeKeepsUntouched | config.py:136-142 | a key whose top level the override does not mention keeps the base's value |
| Config.MergeIdempotent | config.py:136-142 | merging the same file twice is merging it once |
| Config.MergeSelf | config.py:136-142 | merging a configuration into itself changes nothing |
| Config.Defaults | config.py:26-82 | the defaults have the six sections database, logging, api, performance, security and development |
| Config.Settings.constructor | config.py:18-24 | a new configuration is the defaults, merged with the configuration file when one is read |
| Config.Settings.MergeFile | config.py:126-134 | loading a file merges it into the current configuration |
| Config.Settings.Get | config.py:144-164 | `get` follows the dotted key through nested tables and gives the default as soon as a piece is missing or a value is reached early |
| Config.Settings.Set | config.py:166-182 | `set` creates missing tables along the dotted key and stores the value at its end, or raises TypeError and changes nothing when a value is in the way |
| Config.Settings.Problems | config.py:210-228 | the port, path and level problems are reported exactly when the port is not an integer in 1..65535 (a bool counts as 0 or 1), the path is missing or falsy, or the level is not one of the five level names |
| Config.Settings.Validate | config.py:210-234 | validation passes exactly when none of the three problems is present |
| Config.Settings.ToDict | config.py:236-238 | `to_dict` has exactly the top-level entries of the configuration |
| Config.DefaultsValid | config.py:26-82 | the defaults pass validation |

## Left out

- File I/O is reduced to the `file` field and the `Io` parameter. The directory creation, the temporary file and its atomic rename, JSON encoding, UTF-8 and the logger are not part of this model. A single `Io` value serves every save of one call, including the saves nested in a transaction. Its one `stamp` also serves as the `_updated_at` of every record an update changes, where the source calls `datetime.now()` for each record (`adb.py:548`).
- `save_database` catches only `IOError` (`adb.py:212`). A schema's `type` is a Python type object, since `_validate_record` passes it to `isinstance` (`adb.py:266`; `tests/test_adb.py:42-45` uses `str` and `int`). `json.dump` cannot encode a type object, so once a table has a typed schema every unthrottled save raises `TypeError`. The model writes its `TypeTag` values into the document, and its save never raises.
- JSON round-tripping of records is not modelled. What it does to index keys is modelled separately by `Persistence.ReloadIndex` (see "Findings").
- Persistence.LoadWrapped: the round trip holds because the model keeps an index key as the value it was. In the source, JSON turns the keys 20, True and None into "20", "true" and "null", so a reloaded index no longer finds them (`Persistence.StaleIndexAfterReload`).
- Engine.Database.constructor: requires that the file loads. Where the source would install a wrongly shaped document (for example a list at the top level), `Persistence.Load` gives none and the engine is not built.
- Values are null, booleans, integers and strings. Floats, nested mappings and lists are left out. Python's `True == 1` equality between a bool and an int is not modelled: equality is structural. Bools are orderable like integers, as in Python.
- Records are maps, so field order is not modelled. `list_tables` and `list_indexes` return sets, so the order of the names is not modelled.
- Character classes (`isalnum`, `isspace`, `lower`, `upper`) are modelled on ASCII only. Unicode letters, digits and case mappings are not.
- `get_table_info`, `get_database_info`, `backup`, `restore`, `vacuum` and `export_data` are not part of this model. Neither is the first `drop_table` (`adb.py:241-251`), which the second definition replaces, nor the Flask API server and the command line.
- `alter_table` with no `column_name` (Python `None` as a key) is not modelled: the action always names a column.
- A `$group` stage without an `_id` (a `KeyError` in the source) is not modelled: a group stage always names its field.
- An operator mapping holds only `$gt`, `$lt`, `$gte`, `$lte` and `$like`. The source ignores any other key, so such keys are simply absent from `Clause`. A `$like` pattern is always a string; a non-string pattern (an `AttributeError` in the source) is not modelled.
- Engine.Database.ImportRecord: states the table size only for insert mode. In replace and update mode, the record count depends on how many records carry the `_id`, which the contract leaves open.
- Engine.Database.ImportData: does not state the records' contents, only the tallies and the table size in insert mode. A transaction error after the start (a failing save) is not modelled, since the save reports failure by its result and does not raise.
- Engine.Database.RunTransaction: does not state the effect of a body that completes beyond the file written. The body is a list of engine calls (`Op`), not arbitrary Python code.
- Engine.Database.AlterTable: does not promise that an index on the added column is fresh, because the source leaves it stale.
- Engine.Database.OptimizeTable: does not promise that an index on `_id` is fresh, because the source rebuilds before renumbering. It also calls the corrected rebuild in place of the source's `_rebuild_indexes` (`adb.py:823`), which leaves every index as it was.
- Engine.Database.Update: calls the corrected rebuild in place of the source's `_rebuild_indexes` (`adb.py:553`). The source leaves the indexes as they were, so after an update that changes an indexed column they no longer reflect the records.
- Engine.Database.Delete: calls the corrected rebuild in place of the source's `_rebuild_indexes` (`adb.py:578`). The source leaves the indexes as they were, so after a delete their positions point at the wrong records (`Indexes.StaleIndexAfterDelete`).
- Engine.Database.Apply: states the records, the schemas and the error of each step, but not the indexes after an insert, an update or a delete. `Engine.Database.Insert`, `Engine.Database.Update` and `Engine.Database.Delete` state those.
- Loading configuration from environment variables (`config.py:84-124`), `save` and `create_directories` are not part of this model. Neither is a configuration file that fails to parse (only a warning is printed) or that is not a mapping.
- Engine.Database.Select, Engine.Database.Aggregate, Engine.Database.GetSchema, Engine.Database.CreateTable and Engine.Database.SetSchema are computed on values. The source shares its stored objects with the caller. `select` returns the stored record dicts (`adb.py:346`, `adb.py:355`, `adb.py:363`). `aggregate` returns the stored list itself for an empty pipeline (`adb.py:489`), and the stored dicts after a `$match`. `get_schema` returns the stored schema dict (`adb.py:745`). `create_table` and `set_schema` store the caller's own dict (`adb.py:236`, `adb.py:761`). An in-place edit by the caller therefore changes the database with no validation, no index maintenance and no save. The model returns and stores values, so this aliasing is not modelled.
- Config.Settings.Set and Config.Settings.MergeFile are computed on values. The source walks and updates the nested dictionaries in place. Their sharing, including the sharing of nested tables between the configuration and the shallow copy `to_dict` returns, is not modelled.
- Config values are null, booleans, integers, strings and nested tables. Lists and floats in a configuration file are not modelled.

## Findings

| source | as written | input that shows it | evidently intended | confidence | as-written member | corrected member |
|---|---|---|---|---|---|---|
| adb.py:603-609 | `_rebuild_indexes` calls `create_index` for each indexed column, but `create_index` returns `False` for a column that already has an index, so nothing is rebuilt and the position lists go stale after `delete` or `update` | records `{dept: eng, age: 20}`, `{dept: eng, age: 40}`, `{dept: hr, age: 30}`, an index on `dept`, then `delete({age: 20})`: `select({dept: eng})` then returns the age-40 and the `hr` record instead of only the age-40 one | every index of the table is recomputed from the current records, so that an indexed select returns what a full scan returns | high; not executed | Engine.Database.RebuildIndexesAsWritten, Indexes.StaleIndexAfterDelete | Engine.Database.RebuildIndexes, Indexes.Rebuild |
| adb.py:164-207 | `save_database` writes the indexes with `json.dump` and `load_database` reads them back with `json.load`. JSON object keys are strings, so an index key 20, True or None comes back as "20", "true" or "null", and the index path of `select` looks up the original value | records `[{age: 20}]`, `create_index('t', 'age')`, then a save and a new `ADB` on the same file: `select('t', {age: 20})` returns `[]`, while the full scan returns the record | the indexes read from the file find the same records as before the save, for example by rebuilding them from the loaded records; the model's load keeps index keys as they were saved, which gives the same indexes when the saved ones were fresh | high; not executed | Persistence.ReloadIndex, Persistence.StaleIndexAfterReload | Persistence.Reindex, Persistence.ReindexAfterReload |
