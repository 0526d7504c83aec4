/** The migration that adds `top_cluster_ids` to `rdf_triples` and fills it
    with each triple's top three clusters, committing every 1000 rows. */
module AddTopClusters {
  import opened Values
  import opened Clusters
  import opened TagClassifier
  import opened TripleTable
  import Schema

  /** Clusters kept per triple. */
  const TopN: nat := 3

  /** A selected row whose tags decode and whose UPDATE the engine accepts:
      it is written and counted. Any other row throws inside the loop's
      try/catch and is skipped. */
  predicate Classified(row: TripleRow, id: int, refused: set<int>)
  {
    DecodeList(row.tags).Some? && id !in refused
  }

  /** The ids written for a row whose tags decode. */
  function ClusterIdsFor(row: TripleRow, registry: seq<TagCluster>): seq<int>
    requires DecodeList(row.tags).Some?
  {
    TopClustersForTags(DecodeList(row.tags).value, registry, TopN)
  }

  /** The loop over the selected rows, visited in `order`: each row's tags
      come from the rows as selected before the loop. */
  function ClassifyPass(selected: map<int, TripleRow>, registry: seq<TagCluster>, order: seq<int>,
                        refused: set<int>): Progress
    requires forall i | 0 <= i < |order| :: order[i] in selected
  {
    if order == [] then Progress(selected, 0)
    else
      var earlier := ClassifyPass(selected, registry, order[..|order| - 1], refused);
      var id := order[|order| - 1];
      var row := selected[id];
      if Classified(row, id, refused)
      then Progress(WithClusterIds(earlier.table, id, ClusterIdsFor(row, registry)), earlier.count + 1)
      else earlier
  }

  /** After the pass, a visited row that was classified holds its encoded
      top clusters; every other row, and every tags column, is as
      selected. No row appears or disappears. */
  lemma {:induction false} ClassifyPassRow(selected: map<int, TripleRow>, registry: seq<TagCluster>,
                                           order: seq<int>, refused: set<int>, id: int)
    requires forall i | 0 <= i < |order| :: order[i] in selected
    requires id in selected
    ensures var table := ClassifyPass(selected, registry, order, refused).table;
            table.Keys == selected.Keys &&
            table[id] == if id in order && Classified(selected[id], id, refused)
                         then selected[id].(clusterIds := Parsed(ClusterIdsFor(selected[id], registry)))
                         else selected[id]
  {
    if order != [] {
      var init := order[..|order| - 1];
      var last := order[|order| - 1];
      ClassifyPassRow(selected, registry, init, refused, id);
      ClassifyPassRow(selected, registry, init, refused, last);
      assert id in order <==> id in init || id == last;
    }
  }

  /** One more visit extends the pass by the step for `order[k]`. */
  lemma ClassifyPassStep(selected: map<int, TripleRow>, registry: seq<TagCluster>, order: seq<int>,
                         refused: set<int>, k: nat)
    requires forall i | 0 <= i < |order| :: order[i] in selected
    requires k < |order|
    ensures var earlier := ClassifyPass(selected, registry, order[..k], refused);
            var row := selected[order[k]];
            ClassifyPass(selected, registry, order[..k + 1], refused) ==
              if Classified(row, order[k], refused)
              then Progress(WithClusterIds(earlier.table, order[k], ClusterIdsFor(row, registry)), earlier.count + 1)
              else earlier
  {
    assert order[..k + 1][..k] == order[..k];
  }

  /** The positions of `order` whose row is classified. */
  ghost function ClassifiedPositions(selected: map<int, TripleRow>, order: seq<int>, refused: set<int>): set<int>
    requires forall i | 0 <= i < |order| :: order[i] in selected
  {
    set i | 0 <= i < |order| && order[i] in selected && Classified(selected[order[i]], order[i], refused)
  }

  /** `processed` counts the visits whose row was classified, so it never
      exceeds the number of rows visited. */
  lemma {:induction false} ClassifyPassCount(selected: map<int, TripleRow>, registry: seq<TagCluster>,
                                             order: seq<int>, refused: set<int>)
    requires forall i | 0 <= i < |order| :: order[i] in selected
    ensures ClassifyPass(selected, registry, order, refused).count == |ClassifiedPositions(selected, order, refused)|
    ensures ClassifyPass(selected, registry, order, refused).count <= |order|
  {
    if order != [] {
      var n := |order| - 1;
      var init := order[..n];
      ClassifyPassCount(selected, registry, init, refused);
      var before := ClassifiedPositions(selected, init, refused);
      assert n !in before;
      if Classified(selected[order[n]], order[n], refused) {
        assert ClassifiedPositions(selected, order, refused) == before + {n};
      } else {
        assert ClassifiedPositions(selected, order, refused) == before;
      }
    }
  }

  /** A row whose tags column is NULL or empty gets the empty list. */
  lemma NoTagsGetEmptyList(row: TripleRow, registry: seq<TagCluster>)
    requires row.tags.Null? || row.tags.Blank?
    ensures DecodeList(row.tags).Some? && ClusterIdsFor(row, registry) == []
  {
    NoTagsNoClusters(registry, TopN);
  }

  /** What a classified row holds: at most three distinct ids, each of a
      cluster that shares a tag with the row. */
  lemma ClusterIdsBounded(row: TripleRow, registry: seq<TagCluster>)
    requires DecodeList(row.tags).Some?
    ensures var ids := ClusterIdsFor(row, registry);
            |ids| <= TopN && NoDuplicates(ids) &&
            forall x :: x in ids ==> x in MatchingIds(DecodeList(row.tags).value, registry)
  {
    TopClustersMembers(DecodeList(row.tags).value, registry, TopN);
  }

  /** One visit of the loop (lines 70-85): the guarded classify-and-UPDATE
      of `order[k]`, then the success bookkeeping. It extends the pass by
      that row, and COMMITs exactly when the success completes a batch. */
  method ClassifyRow(store: TripleStore, registry: seq<TagCluster>, selected: map<int, TripleRow>,
                     order: seq<int>, k: nat, processed: nat) returns (next: nat)
    requires forall i | 0 <= i < |order| :: order[i] in selected
    requires k < |order| && store.inTransaction
    requires Progress(store.rows, processed) == ClassifyPass(selected, registry, order[..k], store.refused)
    modifies store`rows, store`committed, store`inTransaction, store`commitLog
    ensures store.inTransaction
    ensures Progress(store.rows, next) == ClassifyPass(selected, registry, order[..k + 1], store.refused)
    ensures next == processed || next == processed + 1
    ensures var batch := next != processed && next % BatchSize == 0;
            store.commitLog == old(store.commitLog) + (if batch then [next] else []) &&
            store.committed == if batch then store.rows else old(store.committed)
  {
    ClassifyPassStep(selected, registry, order, store.refused, k);
    next := processed;
    var id := order[k];
    var row := selected[id];
    match DecodeList(row.tags) {
      case None =>
      case Some(_) =>
        var top := ClusterIdsFor(row, registry);
        var ok := store.WriteClusterIds(id, top);
        if ok {
          next := store.CountSuccess(processed);
        }
    }
  }

  /** The classify-and-update loop: BEGIN, one guarded UPDATE per selected
      row, a COMMIT and BEGIN after every 1000th success, and a final
      COMMIT. */
  method ClassifyAll(store: TripleStore, registry: seq<TagCluster>, order: seq<int>) returns (processed: nat)
    requires !store.inTransaction
    requires forall i | 0 <= i < |order| :: order[i] in store.rows
    modifies store`rows, store`committed, store`inTransaction, store`commitLog
    ensures var pass := ClassifyPass(old(store.rows), registry, order, store.refused);
            store.rows == pass.table && processed == pass.count
    ensures !store.inTransaction && store.committed == store.rows
    ensures store.commitLog == old(store.commitLog) + BatchMarks(processed) + [processed]
    ensures |store.commitLog| == |old(store.commitLog)| + processed / BatchSize + 1
  {
    var selected := store.rows;
    store.Begin();
    processed := 0;
    // The prefix of `order` visited when the last in-loop COMMIT ran (0
    // before the first): what that COMMIT made durable.
    ghost var mark := 0;
    for k := 0 to |order|
      invariant store.inTransaction
      invariant Progress(store.rows, processed) == ClassifyPass(selected, registry, order[..k], store.refused)
      invariant store.commitLog == old(store.commitLog) + BatchMarks(processed)
      invariant mark <= k
      invariant store.committed ==
                if mark == 0 then old(store.committed) else ClassifyPass(selected, registry, order[..mark], store.refused).table
    {
      var next := ClassifyRow(store, registry, selected, order, k, processed);
      if next != processed {
        BatchMarksNext(processed);
        if next % BatchSize == 0 {
          mark := k + 1;
        }
      }
      processed := next;
    }
    assert order[..|order|] == order;
    store.Commit(processed);
  }

  /** How a run ends. */
  datatype Outcome = Aborted(message: string) | Completed(processed: nat)

  /** The whole script after the registry is loaded: the idempotent ALTER,
      then the loop. A fatal ALTER error ends the run before any row is
      touched, and so does a continued step that left the column missing:
      preparing the UPDATE then throws. */
  method Run(store: TripleStore, registry: seq<TagCluster>, order: seq<int>, fault: Option<string>)
    returns (outcome: Outcome)
    requires !store.inTransaction
    requires forall i | 0 <= i < |order| :: order[i] in store.rows
    modifies store
    ensures store.columns == Schema.ColumnsAfter(old(store.columns), ClusterColumn, fault)
    ensures !store.inTransaction
    ensures var step := Schema.ColumnStepOf(Schema.Alter(old(store.columns), ClusterColumn, fault));
            if step.Fatal? then
              outcome == Aborted(step.message) && store.rows == old(store.rows) &&
              store.committed == old(store.committed) && store.commitLog == old(store.commitLog)
            else if ClusterColumn !in store.columns then
              outcome == Aborted(Schema.NoSuchColumn(ClusterColumn)) && store.rows == old(store.rows) &&
              store.committed == old(store.committed) && store.commitLog == old(store.commitLog)
            else
              var pass := ClassifyPass(old(store.rows), registry, order, store.refused);
              outcome == Completed(pass.count) && store.rows == pass.table && store.committed == store.rows &&
              store.commitLog == old(store.commitLog) + BatchMarks(pass.count) + [pass.count]
  {
    var step := store.AddColumn(ClusterColumn, fault);
    if step.Fatal? {
      return Aborted(step.message);
    }
    if ClusterColumn !in store.columns {
      return Aborted(Schema.NoSuchColumn(ClusterColumn));
    }
    var processed := ClassifyAll(store, registry, order);
    outcome := Completed(processed);
  }
}
