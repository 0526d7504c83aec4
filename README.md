# Tag-cluster migrations, modelled in Dafny

This project models three one-shot SQLite migrations of a document-analysis
database. Each selects every row, then walks the selection and updates rows
one by one. Each row is guarded, so a failure on one row is logged and the
walk goes on. Two of them first add a column without failing when it already
exists; `add_misc_cluster.ts` runs no ALTER and writes only the registry file
and the rows.

- `add_top_clusters_column.ts` adds `top_cluster_ids` to `rdf_triples`. It
  scores each triple's tags against the clusters of `tag_clusters.json` and
  stores the ids of the three best clusters. It commits after every 1000
  successful updates.
- `add_misc_cluster.ts` makes sure the registry holds a fallback cluster
  named "Misc", appending one with id 20 and rewriting the file when it is
  missing. It then gives that id to every triple whose cluster list is
  empty, with the same 1000-row batching.
- `migrate_add_text_column.ts` adds `full_text` to `documents`. It fills the
  column from each document's file and counts successes and errors.

Modules:

- `Values`: the decoded form of a nullable TEXT column that holds a JSON list
  (`Stored`).
- `Schema`: the storage engine's answer to `ALTER TABLE ... ADD COLUMN` and
  the scripts' treatment of "duplicate column name".
- `Clusters`: the registry entries.
- `TagClassifier`: `getTopClustersForTags` as pure functions. It covers the
  match count, the insertion-ordered `Map`, the stable descending sort and
  the cut to `topN`, with lemmas on each.
- `TripleTable`: the `rdf_triples` table as a class with rows, a committed
  snapshot, a transaction flag and the log of COMMITs.
- `AddTopClusters`, `MiscCluster`, `TextColumn`: one module per script.

Each loop is a method proved against a function. The function folds the
script's step over the selected rows in visiting order, and lemmas state
what that fold does to each row and to the counters.

The environment appears as parameters:

- the engine's failure of an ALTER is `fault`;
- the ids whose UPDATE the engine refuses are the store's `refused` set;
- the readable files are a map from path to contents.

A cluster's match count is
`tags.filter(tag => cluster.tags.includes(tag)).length`, so a tag repeated
in the input counts once per occurrence. The model follows the code
(`TagClassifier.MatchCountIsPositions`, `TagClassifier.RepeatedTagsCountTwice`).

## Model

| member | source | states |
|---|---|---|
| Values.EncodeList | add_top_clusters_column.ts:73 | a stored list decodes back to the same list |
| Values.DecodeList | add_top_clusters_column.ts:71 | definition of `column ? JSON.parse(column) : []`; `Values.EncodeList`, `AddTopClusters.NoTagsGetEmptyList` and `MiscCluster.NeedsFallback` state its meaning |
| Schema.Contains | add_top_clusters_column.ts:42 | definition of `message.includes(...)` as a scan from the left; `Schema.ContainsAtOffset` states its meaning |
| Schema.ColumnStepOf | add_top_clusters_column.ts:38-47 | the run continues exactly on success or on an error whose message has "duplicate column name" at some offset; any other error aborts with its message unchanged |
| Schema.ContainsAtOffset | add_top_clusters_column.ts:42 | `includes` holds exactly when the fragment occurs at some offset of the message |
| Schema.AddColumnTwice | add_top_clusters_column.ts:38-47 | on a healthy engine the first run adds the column and a second run hits "duplicate column name", continues and leaves the schema as it was |
| Schema.OtherFailuresAreFatal | migrate_add_text_column.ts:10-19 | an engine failure not about a duplicate column aborts with its own message; one that mentions it lets the run continue without the column being added |
| TagClassifier.Matching | add_top_clusters_column.ts:22 | the filtered tags are at most as many as the input tags, and each is both an input tag and a cluster member |
| TagClassifier.MatchCount | add_top_clusters_column.ts:22 | definition of `matchCount`; `MatchCountIsPositions` and `MatchCountPositive` state its meaning |
| TagClassifier.MatchCountIsPositions | add_top_clusters_column.ts:22 | a cluster's match count is the number of input positions holding one of its tags, repeats included |
| TagClassifier.MatchCountPositive | add_top_clusters_column.ts:22-23 | a cluster is recorded exactly when at least one input tag is among its tags |
| TagClassifier.Record | add_top_clusters_column.ts:24 | definition of `Map.set` on the insertion-ordered Map; `RecordNew`, `RecordExisting`, `RecordIds`, `RecordEntries` and `RecordDistinct` state its contract |
| TagClassifier.RecordNew | add_top_clusters_column.ts:24 | `Map.set` on a new key appends the entry |
| TagClassifier.RecordExisting | add_top_clusters_column.ts:24 | `Map.set` on a present key overwrites its count in place, at its position |
| TagClassifier.RecordIds | add_top_clusters_column.ts:24 | `Map.set` keeps the key order and appends only a new key |
| TagClassifier.RecordEntries | add_top_clusters_column.ts:24 | after `Map.set` the new entry is present and every other entry was there before |
| TagClassifier.RecordDistinct | add_top_clusters_column.ts:24 | `Map.set` never makes a key occur twice |
| TagClassifier.Tally | add_top_clusters_column.ts:18-26 | definition of the Map after `forEach`; `TallyDistinct`, `TallyIds`, `TallyCounts`, `TallyMatchingIds` and `TallyInRegistryOrder` state its contract |
| TagClassifier.TallyDistinct | add_top_clusters_column.ts:18-26 | the Map holds each cluster id at most once and has no more entries than the registry has clusters |
| TagClassifier.TallyIds | add_top_clusters_column.ts:18-26 | the Map's keys are exactly the ids of the clusters that match at least one tag |
| TagClassifier.TallyCounts | add_top_clusters_column.ts:18-26 | every count in the Map is positive and is the match count of some cluster with that id |
| TagClassifier.TallyInRegistryOrder | add_top_clusters_column.ts:18-26 | with unique cluster ids the Map lists the matching clusters in registry order with their own counts, against an independent definition |
| TagClassifier.Insert | add_top_clusters_column.ts:30 | definition of one insertion step of the stable sort; `InsertPermutes`, `InsertPermutesIds`, `InsertDescending` and `InsertWithCount` state its contract |
| TagClassifier.Rank | add_top_clusters_column.ts:29-30 | definition of the stable descending sort; `RankPermutes`, `RankPermutesIds`, `RankDescending` and `RankStable` state its contract |
| TagClassifier.InsertPermutes | add_top_clusters_column.ts:30 | one insertion step of the sort adds exactly the inserted entry |
| TagClassifier.InsertPermutesIds | add_top_clusters_column.ts:30 | one insertion step adds exactly the inserted entry's id |
| TagClassifier.InsertDescending | add_top_clusters_column.ts:30 | one insertion step keeps the ranking in non-increasing count order |
| TagClassifier.InsertWithCount | add_top_clusters_column.ts:30 | the inserted entry goes first among the entries of its count |
| TagClassifier.RankPermutes | add_top_clusters_column.ts:29-30 | the sorted array is a permutation of the Map's entries |
| TagClassifier.RankPermutesIds | add_top_clusters_column.ts:29-30 | the sorted array holds the same ids as the Map, each as often |
| TagClassifier.RankDescending | add_top_clusters_column.ts:30 | the sorted array is ordered by match count, highest first |
| TagClassifier.RankStable | add_top_clusters_column.ts:30 | the sort is stable: for every count, the entries with that count keep the Map's order |
| TagClassifier.WithCountOfPrefix | add_top_clusters_column.ts:31 | cutting the ranking to its first entries keeps, for each count, an initial run of that count's entries |
| TagClassifier.TopScores | add_top_clusters_column.ts:31 | definition of `.slice(0, topN)` of the ranking; `TopScoresBest` and `TopClustersRanked` state its contract |
| TagClassifier.TopScoresBest | add_top_clusters_column.ts:28-31 | no Map entry left out of the cut has a higher count than an entry kept |
| TagClassifier.TopClustersForTags | add_top_clusters_column.ts:17-33 | the result has at most `topN` ids and at most one per registry cluster; `TopClustersMembers` and `TopClustersRanked` state the rest |
| TagClassifier.TallyMatchingIds | add_top_clusters_column.ts:18-26 | the Map's keys are exactly the matching cluster ids, and it has one entry per distinct matching id |
| TagClassifier.RankedIds | add_top_clusters_column.ts:18-30 | the ranking holds every matching cluster id exactly once and no other id |
| TagClassifier.TopClustersMembers | add_top_clusters_column.ts:17-33 | the result has exactly `min(topN, number of matching clusters)` distinct ids, each of a cluster sharing a tag with the input; when at most `topN` clusters match, it holds all of them |
| TagClassifier.TopClustersRanked | add_top_clusters_column.ts:28-32 | the result is the ids of a count-descending run of Map entries, no entry left out scores higher than one kept, and for each count the kept entries are an initial run of the Map's entries with that count (ties keep first-insertion order) |
| TagClassifier.EmptyClusterNeverReturned | add_top_clusters_column.ts:17-33 | a cluster with no member tags, such as the fallback cluster, is never returned when ids are unique |
| TagClassifier.NoTagsNoClusters | add_top_clusters_column.ts:17-33 | an empty tag list yields no ids |
| TagClassifier.RepeatedTagsCountTwice | add_top_clusters_column.ts:22 | with tags [b, b, a], a cluster holding b outranks an earlier cluster holding a |
| TagClassifier.RegistryOrderBreaksTies | add_top_clusters_column.ts:17-33 | clusters scoring 2, 1, 2 come out as 1, 3, 2: the tie keeps registry order |
| TripleTable.BatchMarks | add_top_clusters_column.ts:78-82 | the in-loop COMMITs happen exactly at each multiple of 1000 successes |
| TripleTable.BatchMarksNext | add_top_clusters_column.ts:77-82 | one more success adds a COMMIT mark exactly when it completes a batch of 1000 |
| TripleTable.ThreeCommitsFor2500 | add_top_clusters_column.ts:64-88 | 2500 successes commit at 1000, 2000 and 2500 |
| TripleTable.WithClusterIds | add_top_clusters_column.ts:58-62 | definition of `UPDATE rdf_triples SET top_cluster_ids = ? WHERE id = ?`; `TripleStore.WriteClusterIds` and the pass row lemmas state its effect |
| TripleTable.TripleStore.constructor | add_top_clusters_column.ts:8 | an opened database has its rows committed and no transaction open |
| TripleTable.TripleStore.AddColumn | add_top_clusters_column.ts:38-47 | the ALTER's outcome and the schema after it are those of the idempotent add-column step |
| TripleTable.TripleStore.Begin | add_top_clusters_column.ts:67 | BEGIN opens a transaction |
| TripleTable.TripleStore.Commit | add_top_clusters_column.ts:88 | COMMIT makes the transaction's rows the committed state and closes the transaction |
| TripleTable.TripleStore.CountSuccess | add_top_clusters_column.ts:77-82 | the counter goes up by one, and at each multiple of 1000 the rows are committed and a new transaction is open |
| TripleTable.TripleStore.WriteClusterIds | add_top_clusters_column.ts:75 | an accepted UPDATE stores the encoded list in that row only; a refused one changes nothing |
| AddTopClusters.Classified | add_top_clusters_column.ts:70-85 | definition of a row whose `try` body runs to the end: its tags decode and its UPDATE is accepted; `ClassifyPassRow` and `ClassifyPassCount` state its effect |
| AddTopClusters.ClusterIdsFor | add_top_clusters_column.ts:71-73 | definition of the ids written for a row; `NoTagsGetEmptyList` and `ClusterIdsBounded` state what they are |
| AddTopClusters.ClassifyPass | add_top_clusters_column.ts:64-86 | definition of the classify loop over the selected rows; `ClassifyPassStep`, `ClassifyPassRow`, `ClassifyPassCount` and `ClassifyAll` state its contract |
| AddTopClusters.ClassifyPassStep | add_top_clusters_column.ts:69-86 | one more visit extends the pass by exactly that row's step |
| AddTopClusters.ClassifyPassRow | add_top_clusters_column.ts:69-86 | after the loop a row holds its top clusters exactly when it was visited, its tags decoded and its UPDATE went through; every other row is as selected and no row appears or disappears |
| AddTopClusters.ClassifyPassCount | add_top_clusters_column.ts:64-86 | `processed` counts exactly the visits whose row was classified and never exceeds the number of rows |
| AddTopClusters.NoTagsGetEmptyList | add_top_clusters_column.ts:71-72 | a row with NULL or empty tags gets the empty list |
| AddTopClusters.ClusterIdsBounded | add_top_clusters_column.ts:72-75 | a row gets at most three distinct ids, each of a cluster sharing one of its tags |
| AddTopClusters.ClassifyRow | add_top_clusters_column.ts:70-85 | one visit extends the pass by its row, COMMITs exactly when its success completes a batch of 1000, and then the committed snapshot is the pass so far |
| AddTopClusters.ClassifyAll | add_top_clusters_column.ts:64-88 | the loop leaves the table and `processed` as the pass defines them, everything committed, and one COMMIT per 1000 successes plus a final one; inside the loop the committed snapshot is the pass up to the last in-loop COMMIT |
| AddTopClusters.Run | add_top_clusters_column.ts:38-88 | a fatal ALTER aborts with the engine's message and no row touched; a continued step that leaves the column missing aborts with SQLite's "no such column" error and no row touched; otherwise the classify loop runs to completion; in every case no transaction is left open |
| MiscCluster.FindByName | add_misc_cluster.ts:17 | `find` returns the first cluster with the name, or nothing when no cluster has it |
| MiscCluster.EnsureMiscIn | add_misc_cluster.ts:17-38 | definition of the registry step; `EnsureMiscInResult` and `EnsureMiscInIdempotent` state its contract |
| MiscCluster.EnsureMiscInResult | add_misc_cluster.ts:17-38 | an existing "Misc" keeps the list and yields the first match's id; otherwise exactly the fallback cluster with id 20 is appended; either way the list then has a "Misc" with that id |
| MiscCluster.FindAfterAppend | add_misc_cluster.ts:17-33 | a name missing from the list is found at the entry appended for it |
| MiscCluster.EnsureMiscInIdempotent | add_misc_cluster.ts:17-38 | a second run keeps the list and the id and writes nothing; the list grows by at most one cluster |
| MiscCluster.ClusterRegistry.Load | add_misc_cluster.ts:11-12 | the in-memory list is the decoded registry file, with no writes yet |
| MiscCluster.ClusterRegistry.EnsureMisc | add_misc_cluster.ts:17-38 | the in-memory list and the id follow the registry step, and the file is rewritten with the new list exactly when a cluster was appended |
| MiscCluster.NeedsFallback | add_misc_cluster.ts:62-69 | definition of a row whose stored list decodes to the empty list; `FallbackPassRow` and `FallbackCoversVisitedRows` state its effect |
| MiscCluster.Assigned | add_misc_cluster.ts:62-72 | definition of a row that is given the fallback and counted: it needs it and its UPDATE is accepted; `FallbackPassRow` and `FallbackPassCount` state its effect |
| MiscCluster.FallbackPass | add_misc_cluster.ts:55-83 | definition of the fallback loop over the selected rows; `FallbackPassStep`, `FallbackPassRow`, `FallbackPassCount`, `FallbackPassSkipped`, `FallbackPassAgain`, `FallbackPassTwice` and `AssignFallback` state its contract |
| MiscCluster.FallbackPassRow | add_misc_cluster.ts:60-83 | after the loop a row holds `[miscId]` exactly when it was visited, its list decoded to empty and its UPDATE went through; all other rows are as selected |
| MiscCluster.FallbackPassCount | add_misc_cluster.ts:55-83 | `updated` counts exactly the visits that gave a row the fallback |
| MiscCluster.FallbackPassSkipped | add_misc_cluster.ts:88 | the reported "already had" figure, total minus updated, is the number of visits that changed nothing, which includes malformed and refused rows |
| MiscCluster.FallbackPassStep | add_misc_cluster.ts:60-83 | one more visit extends the pass by exactly that row's step |
| MiscCluster.FallbackCoversVisitedRows | add_misc_cluster.ts:64-72 | every visited row whose list decodes and whose UPDATE is accepted ends with a non-empty cluster list |
| MiscCluster.FallbackPassAgain | add_misc_cluster.ts:60-83 | a second run of the loop over the first run's output, against any engine, updates exactly the rows that needed the fallback, were refused the first time and are accepted now |
| MiscCluster.FallbackPassTwice | add_misc_cluster.ts:60-83 | a second run of the loop over the first run's output, against an engine that refuses the same ids, updates no row |
| MiscCluster.FallbackRow | add_misc_cluster.ts:61-81 | one visit extends the pass by its row, COMMITs exactly when its update completes a batch of 1000, and then the committed snapshot is the pass so far |
| MiscCluster.AssignFallback | add_misc_cluster.ts:55-85 | the loop leaves the table and `updated` as the pass defines them, everything committed, and one COMMIT per 1000 updates plus a final one; inside the loop the committed snapshot is the pass up to the last in-loop COMMIT |
| MiscCluster.Run | add_misc_cluster.ts:17-88 | the registry step, with the file rewritten exactly when Misc is created; then, on a table without `top_cluster_ids`, an abort with SQLite's "no such column" error and no row touched, and otherwise the fallback loop with that id and the two reported figures, which add up to the number of rows; no transaction is left open |
| TextColumn.DocumentStore.constructor | migrate_add_text_column.ts:5 | an opened database holds the given columns and rows |
| TextColumn.DocumentStore.AddColumn | migrate_add_text_column.ts:10-19 | the ALTER's outcome and the schema after it are those of the idempotent add-column step |
| TextColumn.WithFullText | migrate_add_text_column.ts:30 | definition of `UPDATE documents SET full_text = ? WHERE id = ?`; `DocumentStore.WriteFullText` and `IngestPassRow` state its effect |
| TextColumn.DocumentStore.WriteFullText | migrate_add_text_column.ts:38 | an accepted UPDATE stores the text in that row only; a refused one changes nothing |
| TextColumn.Ingested | migrate_add_text_column.ts:35-42 | definition of a document whose `try` body runs to the end: its file is readable and its UPDATE is accepted; `IngestPassRow` and `IngestPassCount` state its effect |
| TextColumn.IngestPass | migrate_add_text_column.ts:31-47 | definition of the read-and-update loop; `IngestPassRow`, `IngestPassKeys`, `IngestPassCount`, `IngestPassTwice` and `IngestAll` state its contract |
| TextColumn.IngestPassRow | migrate_add_text_column.ts:34-47 | after the loop a document holds its file's contents exactly when it was visited, its file was readable and its UPDATE went through; all other documents are as selected |
| TextColumn.IngestPassKeys | migrate_add_text_column.ts:34-47 | the loop adds and removes no documents |
| TextColumn.IngestPassCount | migrate_add_text_column.ts:31-47 | the success count is the number of ingested visits, and successes plus errors equals the number of documents |
| TextColumn.IngestPassTwice | migrate_add_text_column.ts:34-47 | re-running the loop over its own output with the same files, against an engine that refuses the same ids, leaves the table and both counts unchanged |
| TextColumn.IngestAll | migrate_add_text_column.ts:30-47 | the loop leaves the table and the two counters as the pass defines them |
| TextColumn.Run | migrate_add_text_column.ts:10-51 | a fatal ALTER aborts with the engine's message and no document touched; a continued step that leaves the column missing aborts with SQLite's "no such column" error and no document touched; otherwise the report holds the pass's counts, which add up to the number of documents |

## Left out

- JSON text: parsing and serialising are abstract. A column is NULL, the empty string, a list, or `Malformed`.
- Non-list JSON in `top_cluster_ids`: in `add_misc_cluster.ts` such a value can behave unlike a throw. An object has no length and is skipped without an error. The JSON string `""` has length 0 and would be overwritten. The model treats every non-list value as `Malformed`, which is skipped.
- Non-string tags: elements of `triple_tags` that are not strings are not modelled.
- AddTopClusters.Classified: a `triple_tags` value that is valid JSON but not a list (`5`, `null`, `{}`) is read as `Malformed`, so the row is skipped and not counted. That matches the source whenever the registry has a cluster, because `tags.filter` then throws. With an empty registry `forEach` never calls `filter`, so the source writes `[]` to such a row and counts it. The model does not capture that case.
- TripleTable.TripleStore: the `columns` set and the rows' `clusterIds` field are not connected. Before `top_cluster_ids` exists, a row's `clusterIds` means nothing. After the ALTER adds the column SQLite holds NULL in every row, but the model keeps whatever value the caller supplied for rows the loop does not write.
- The registry file: reading, decoding and pretty-printing `tag_clusters.json` are left out, and the model starts from a decoded list of clusters. A file that is not JSON makes both scripts throw at load. A file holding the JSON literal `null` makes both scripts throw at line 14, where `${tagClusters.length}` is logged, before the ALTER and before any row is touched. Any other JSON value that is not a list behaves differently in the two scripts. In `add_misc_cluster.ts` it throws at `find` (line 17), before any row is touched. In `add_top_clusters_column.ts` the ALTER still runs, every row then throws at `forEach` (line 21) inside the per-row `try`, and the run completes with `processed` at 0. None of these cases is modelled.
- `TagClassifier.TopClustersForTags`: `topN` is a natural number, so JavaScript's negative `slice` bounds are not modelled. The scripts always pass 3.
- Unique cluster ids: the scripts do not check them. The lemmas that depend on them (`TallyInRegistryOrder`, `EmptyClusterNeverReturned`) require them, while the classifier itself models a duplicate id as `Map.set` does.
- CREATE INDEX (`add_top_clusters_column.ts:92-99`): it does not change any row, and its failure is only logged.
- Logging: console output, including the progress lines every 1000 or 100 rows and the per-row error messages.
- Environment: `DB_PATH`, `process.cwd()`, `path.join` and `db.close` are left out. Documents' files are keyed by their stored path, and UTF-8 decoding is not modelled.
- BEGIN and COMMIT failures: the model does not let them fail. An in-loop COMMIT or BEGIN (`add_top_clusters_column.ts:79-81`, `add_misc_cluster.ts:75-77`) would be caught by the per-row `catch`. The opening BEGIN (`add_top_clusters_column.ts:67`, `add_misc_cluster.ts:58`) and the final COMMIT (`add_top_clusters_column.ts:88`, `add_misc_cluster.ts:85`) are outside the `try`, so a failure there would end the script.
- Crashes and rollback mid-run: no crash is modelled. The loops state what a crash would keep: after each in-loop COMMIT the committed snapshot is the pass over the rows visited so far (`ClassifyRow`, `FallbackRow`, and the invariants of `ClassifyAll` and `AssignFallback`).
- Concurrency: other writers to the database during a run are not modelled.
- A rethrown ALTER error ends the process. It is modelled as an `Aborted` outcome. So is the error SQLite raises when a statement names a missing column. `add_top_clusters_column.ts` and `migrate_add_text_column.ts` hit it at the UPDATE's `db.prepare` when the ALTER failed with a message that mentions "duplicate column name" but the column is absent. `add_misc_cluster.ts` hits it at the SELECT (line 42) when `top_cluster_ids` does not exist, after the registry step may have rewritten the file. The message is modelled as `no such column: <name>`.
