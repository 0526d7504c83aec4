/** The migration that makes sure the registry has a fallback "Misc"
    cluster and gives it to every triple that has no cluster yet. */
module MiscCluster {
  import opened Values
  import opened Clusters
  import opened TripleTable
  import Schema

  const MiscName: string := "Misc"

  /** The fixed id given to a synthesised fallback cluster. It is not
      derived from the ids already in use. */
  const MiscId: int := 20

  /** The cluster appended when the registry has none named "Misc". */
  const NewMisc: TagCluster := TagCluster(MiscId, MiscName, ["uncategorized", "other", "miscellaneous"], [])

  // ---------------------------------------------------------------------
  // The registry step

  /** `tagClusters.find(c => c.name === name)`, as a position: the first
      cluster with exactly that name, if any. */
  function FindByName(registry: seq<TagCluster>, name: string): (r: Option<nat>)
    ensures r.Some? ==> r.value < |registry| && registry[r.value].name == name &&
                        forall j :: 0 <= j < r.value ==> registry[j].name != name
    ensures r.None? ==> forall j :: 0 <= j < |registry| ==> registry[j].name != name
  {
    if registry == [] then None
    else if registry[0].name == name then Some(0)
    else match FindByName(registry[1..], name)
      case None => None
      case Some(i) => Some(i + 1)
  }

  /** The registry after the step, the id the script goes on with, and
      whether it appended a cluster (and so rewrote the file). */
  datatype MiscLookup = MiscLookup(registry: seq<TagCluster>, miscId: int, created: bool)

  /** Lines 17-38 of the script on the loaded list. */
  function EnsureMiscIn(registry: seq<TagCluster>): MiscLookup
  {
    match FindByName(registry, MiscName)
    case Some(i) => MiscLookup(registry, registry[i].id, false)
    case None => MiscLookup(registry + [NewMisc], MiscId, true)
  }

  /** If some cluster is named "Misc", the first one's id is used and the
      list is left as it is; otherwise exactly the fallback cluster is
      appended after the unchanged earlier entries. Either way the result
      has a cluster named "Misc" whose first occurrence carries the id. */
  lemma {:induction false} EnsureMiscInResult(registry: seq<TagCluster>)
    ensures var step := EnsureMiscIn(registry);
            (step.created <==> forall j :: 0 <= j < |registry| ==> registry[j].name != MiscName) &&
            (!step.created ==>
               step.registry == registry &&
               exists i :: 0 <= i < |registry| && registry[i].name == MiscName && step.miscId == registry[i].id &&
                           forall j :: 0 <= j < i ==> registry[j].name != MiscName) &&
            (step.created ==> step.registry == registry + [NewMisc] && step.miscId == MiscId) &&
            FindByName(step.registry, MiscName).Some? &&
            step.registry[FindByName(step.registry, MiscName).value].id == step.miscId
  {
    var step := EnsureMiscIn(registry);
    if step.created {
      FindAfterAppend(registry, NewMisc, MiscName);
    }
  }

  /** A name missing from a list is found at the entry appended to it. */
  lemma FindAfterAppend(registry: seq<TagCluster>, cluster: TagCluster, name: string)
    requires FindByName(registry, name).None? && cluster.name == name
    ensures FindByName(registry + [cluster], name) == Some(|registry|)
  {
    var extended := registry + [cluster];
    assert extended[|registry|].name == name;
    forall j | 0 <= j < |registry| ensures extended[j].name != name {
      assert extended[j] == registry[j];
    }
  }

  /** Running the step again on its own output changes nothing and yields the
      same id, so repeated runs add the fallback cluster at most once. */
  lemma {:induction false} EnsureMiscInIdempotent(registry: seq<TagCluster>)
    ensures var once := EnsureMiscIn(registry);
            EnsureMiscIn(once.registry) == MiscLookup(once.registry, once.miscId, false) &&
            |once.registry| <= |registry| + 1
  {
    var once := EnsureMiscIn(registry);
    if once.created {
      FindAfterAppend(registry, NewMisc, MiscName);
    }
  }

  /** `tagClusters` in memory and `tag_clusters.json` on disk. */
  class ClusterRegistry {
    /** The list the script holds. */
    var clusters: seq<TagCluster>
    /** The decoded contents of the registry file. */
    var file: seq<TagCluster>
    /** How many times the script rewrote the file. */
    var writes: nat

    /** `JSON.parse(fs.readFileSync(clustersPath, 'utf-8'))` on a file that
        decodes to a list of clusters. */
    constructor Load(file: seq<TagCluster>)
      ensures clusters == file && this.file == file && writes == 0
    {
      clusters := file;
      this.file := file;
      writes := 0;
    }

    /** Finds the fallback cluster by name, or appends one with the fixed
        id and rewrites the whole file with the new list. */
    method EnsureMisc() returns (miscId: int)
      modifies this
      ensures var step := EnsureMiscIn(old(clusters));
              miscId == step.miscId && clusters == step.registry &&
              file == (if step.created then clusters else old(file)) &&
              writes == old(writes) + (if step.created then 1 else 0)
    {
      var found := FindByName(clusters, MiscName);
      if found.Some? {
        miscId := clusters[found.value].id;
      } else {
        miscId := MiscId;
        clusters := clusters + [NewMisc];
        file := clusters;
        writes := writes + 1;
      }
    }
  }

  // ---------------------------------------------------------------------
  // The fallback assignment

  /** The stored cluster list decodes to the empty list: NULL, the empty
      string, or `[]`. */
  predicate NeedsFallback(row: TripleRow)
  {
    DecodeList(row.clusterIds) == Some([])
  }

  /** A selected row that is given the fallback and counted: it needs it
      and the engine accepts its UPDATE. */
  predicate Assigned(row: TripleRow, id: int, refused: set<int>)
  {
    NeedsFallback(row) && id !in refused
  }

  /** The loop over the selected rows, visited in `order`: each row's list
      comes from the rows as selected before the loop. */
  function FallbackPass(selected: map<int, TripleRow>, miscId: int, order: seq<int>, refused: set<int>): Progress
    requires forall i | 0 <= i < |order| :: order[i] in selected
  {
    if order == [] then Progress(selected, 0)
    else
      var earlier := FallbackPass(selected, miscId, order[..|order| - 1], refused);
      var id := order[|order| - 1];
      if Assigned(selected[id], id, refused)
      then Progress(WithClusterIds(earlier.table, id, [miscId]), earlier.count + 1)
      else earlier
  }

  /** After the pass a visited row that needed the fallback (and whose
      UPDATE went through) holds `[miscId]`; a row with a non-empty list, a
      malformed row, a refused row and an unvisited row are as selected. */
  lemma {:induction false} FallbackPassRow(selected: map<int, TripleRow>, miscId: int, order: seq<int>,
                                           refused: set<int>, id: int)
    requires forall i | 0 <= i < |order| :: order[i] in selected
    requires id in selected
    ensures var table := FallbackPass(selected, miscId, order, refused).table;
            table.Keys == selected.Keys &&
            table[id] == if id in order && Assigned(selected[id], id, refused)
                         then selected[id].(clusterIds := Parsed([miscId]))
                         else selected[id]
  {
    if order != [] {
      var init := order[..|order| - 1];
      var last := order[|order| - 1];
      FallbackPassRow(selected, miscId, init, refused, id);
      FallbackPassRow(selected, miscId, init, refused, last);
      assert id in order <==> id in init || id == last;
    }
  }

  /** One more visit extends the pass by the step for `order[k]`. */
  lemma FallbackPassStep(selected: map<int, TripleRow>, miscId: int, order: seq<int>, refused: set<int>, k: nat)
    requires forall i | 0 <= i < |order| :: order[i] in selected
    requires k < |order|
    ensures var earlier := FallbackPass(selected, miscId, order[..k], refused);
            FallbackPass(selected, miscId, order[..k + 1], refused) ==
              if Assigned(selected[order[k]], order[k], refused)
              then Progress(WithClusterIds(earlier.table, order[k], [miscId]), earlier.count + 1)
              else earlier
  {
    assert order[..k + 1][..k] == order[..k];
  }

  /** The positions of `order` whose row is given the fallback. */
  ghost function AssignedPositions(selected: map<int, TripleRow>, order: seq<int>, refused: set<int>): set<int>
  {
    set i | 0 <= i < |order| && order[i] in selected && Assigned(selected[order[i]], order[i], refused)
  }

  /** The positions of `order` whose row is left alone. */
  ghost function SkippedPositions(selected: map<int, TripleRow>, order: seq<int>, refused: set<int>): set<int>
  {
    set i | 0 <= i < |order| && !(order[i] in selected && Assigned(selected[order[i]], order[i], refused))
  }

  /** `updated` counts the visits that gave a row the fallback. */
  lemma {:induction false} FallbackPassCount(selected: map<int, TripleRow>, miscId: int, order: seq<int>,
                                             refused: set<int>)
    requires forall i | 0 <= i < |order| :: order[i] in selected
    ensures FallbackPass(selected, miscId, order, refused).count == |AssignedPositions(selected, order, refused)|
  {
    if order != [] {
      var n := |order| - 1;
      var init := order[..n];
      FallbackPassCount(selected, miscId, init, refused);
      var given := AssignedPositions(selected, init, refused);
      assert n !in given;
      if Assigned(selected[order[n]], order[n], refused) {
        assert AssignedPositions(selected, order, refused) == given + {n};
      } else {
        assert AssignedPositions(selected, order, refused) == given;
      }
    }
  }

  /** The reported "already had" figure, total minus updated, is the
      number of visits that changed nothing: rows that had clusters, but
      also malformed and refused rows. */
  lemma {:induction false} FallbackPassSkipped(selected: map<int, TripleRow>, miscId: int, order: seq<int>,
                                               refused: set<int>)
    requires forall i | 0 <= i < |order| :: order[i] in selected
    ensures |order| - FallbackPass(selected, miscId, order, refused).count == |SkippedPositions(selected, order, refused)|
  {
    if order != [] {
      var n := |order| - 1;
      var init := order[..n];
      FallbackPassSkipped(selected, miscId, init, refused);
      var skipped := SkippedPositions(selected, init, refused);
      assert n !in skipped;
      if Assigned(selected[order[n]], order[n], refused) {
        assert SkippedPositions(selected, order, refused) == skipped;
      } else {
        assert SkippedPositions(selected, order, refused) == skipped + {n};
      }
    }
  }

  /** After the pass every visited row that decodes and was not refused
      has a non-empty cluster list. */
  lemma FallbackCoversVisitedRows(selected: map<int, TripleRow>, miscId: int, order: seq<int>,
                                  refused: set<int>, id: int)
    requires forall i | 0 <= i < |order| :: order[i] in selected
    requires id in order && DecodeList(selected[id].clusterIds).Some? && id !in refused
    ensures var table := FallbackPass(selected, miscId, order, refused).table;
            id in table && DecodeList(table[id].clusterIds).Some? && DecodeList(table[id].clusterIds).value != []
  {
    FallbackPassRow(selected, miscId, order, refused, id);
  }

  /** The positions whose row still needs the fallback after a first pass
      against the engine refusing `refused`, and whose UPDATE a second engine,
      refusing `refused2`, accepts. */
  ghost function RetriedPositions(selected: map<int, TripleRow>, order: seq<int>,
                                  refused: set<int>, refused2: set<int>): set<int>
  {
    set i | 0 <= i < |order| && order[i] in selected && NeedsFallback(selected[order[i]]) &&
            order[i] in refused && order[i] !in refused2
  }

  /** A second pass over the first pass's output, against any engine,
      updates exactly the rows that needed the fallback, were refused the
      first time and are accepted now: a row once given `[miscId]` is never
      updated again. */
  lemma {:induction false} FallbackPassAgain(selected: map<int, TripleRow>, miscId: int, order: seq<int>,
                                             refused: set<int>, refused2: set<int>)
    requires forall i | 0 <= i < |order| :: order[i] in selected
    ensures var after := FallbackPass(selected, miscId, order, refused).table;
            (forall i | 0 <= i < |order| :: order[i] in after) &&
            FallbackPass(after, miscId, order, refused2).count == |RetriedPositions(selected, order, refused, refused2)|
  {
    var after := FallbackPass(selected, miscId, order, refused).table;
    forall i | 0 <= i < |order|
      ensures order[i] in after &&
              (Assigned(after[order[i]], order[i], refused2) <==>
               NeedsFallback(selected[order[i]]) && order[i] in refused && order[i] !in refused2)
    {
      FallbackPassRow(selected, miscId, order, refused, order[i]);
    }
    FallbackPassCount(after, miscId, order, refused2);
    assert AssignedPositions(after, order, refused2) == RetriedPositions(selected, order, refused, refused2);
  }

  /** A second pass over the first pass's output, against an engine that
      refuses the same ids, updates nothing. */
  lemma {:induction false} FallbackPassTwice(selected: map<int, TripleRow>, miscId: int, order: seq<int>,
                                             refused: set<int>)
    requires forall i | 0 <= i < |order| :: order[i] in selected
    ensures var after := FallbackPass(selected, miscId, order, refused).table;
            (forall i | 0 <= i < |order| :: order[i] in after) &&
            FallbackPass(after, miscId, order, refused).count == 0
  {
    var after := FallbackPass(selected, miscId, order, refused).table;
    forall i | 0 <= i < |order|
      ensures order[i] in after && !Assigned(after[order[i]], order[i], refused)
    {
      FallbackPassRow(selected, miscId, order, refused, order[i]);
    }
    FallbackPassCount(after, miscId, order, refused);
    assert AssignedPositions(after, order, refused) == {};
  }

  /** One visit of the loop (lines 61-81): the guarded decode of `order[k]`
      and, for an empty list, its UPDATE and the success bookkeeping. It
      extends the pass by that row, and COMMITs exactly when the success
      completes a batch. */
  method FallbackRow(store: TripleStore, miscId: int, selected: map<int, TripleRow>,
                     order: seq<int>, k: nat, updated: nat) returns (next: nat)
    requires forall i | 0 <= i < |order| :: order[i] in selected
    requires k < |order| && store.inTransaction
    requires Progress(store.rows, updated) == FallbackPass(selected, miscId, order[..k], store.refused)
    modifies store`rows, store`committed, store`inTransaction, store`commitLog
    ensures store.inTransaction
    ensures Progress(store.rows, next) == FallbackPass(selected, miscId, order[..k + 1], store.refused)
    ensures next == updated || next == updated + 1
    ensures var batch := next != updated && next % BatchSize == 0;
            store.commitLog == old(store.commitLog) + (if batch then [next] else []) &&
            store.committed == if batch then store.rows else old(store.committed)
  {
    FallbackPassStep(selected, miscId, order, store.refused, k);
    next := updated;
    var id := order[k];
    match DecodeList(selected[id].clusterIds) {
      case None =>
      case Some(topClusters) =>
        if |topClusters| == 0 {
          var ok := store.WriteClusterIds(id, [miscId]);
          if ok {
            next := store.CountSuccess(updated);
          }
        }
    }
  }

  /** The assignment loop: BEGIN, one guarded UPDATE per selected row that
      has no clusters, a COMMIT and BEGIN after every 1000th update, and a
      final COMMIT. */
  method AssignFallback(store: TripleStore, miscId: int, order: seq<int>) returns (updated: nat)
    requires !store.inTransaction
    requires forall i | 0 <= i < |order| :: order[i] in store.rows
    modifies store`rows, store`committed, store`inTransaction, store`commitLog
    ensures var pass := FallbackPass(old(store.rows), miscId, order, store.refused);
            store.rows == pass.table && updated == pass.count
    ensures !store.inTransaction && store.committed == store.rows
    ensures store.commitLog == old(store.commitLog) + BatchMarks(updated) + [updated]
  {
    var selected := store.rows;
    store.Begin();
    updated := 0;
    // The prefix of `order` visited when the last in-loop COMMIT ran (0
    // before the first): what that COMMIT made durable.
    ghost var mark := 0;
    for k := 0 to |order|
      invariant store.inTransaction
      invariant Progress(store.rows, updated) == FallbackPass(selected, miscId, order[..k], store.refused)
      invariant store.commitLog == old(store.commitLog) + BatchMarks(updated)
      invariant mark <= k
      invariant store.committed ==
                if mark == 0 then old(store.committed) else FallbackPass(selected, miscId, order[..mark], store.refused).table
    {
      var next := FallbackRow(store, miscId, selected, order, k, updated);
      if next != updated {
        BatchMarksNext(updated);
        if next % BatchSize == 0 {
          mark := k + 1;
        }
      }
      updated := next;
    }
    assert order[..|order|] == order;
    store.Commit(updated);
  }

  /** How the fallback assignment ends: the two figures the script reports,
      or the error that ended the process. */
  datatype Report = Aborted(message: string) | Completed(updated: nat, alreadyHad: nat)

  /** The whole script: the registry step, then the fallback assignment and
      the two figures it reports. The script adds no column: on a table
      without `top_cluster_ids` the SELECT throws after the registry step,
      so the registry may be rewritten but no row is touched. */
  method Run(registry: ClusterRegistry, store: TripleStore, order: seq<int>)
    returns (miscId: int, report: Report)
    requires !store.inTransaction
    requires forall i | 0 <= i < |order| :: order[i] in store.rows
    modifies registry, store`rows, store`committed, store`inTransaction, store`commitLog
    ensures var step := EnsureMiscIn(old(registry.clusters));
            miscId == step.miscId && registry.clusters == step.registry &&
            registry.file == (if step.created then registry.clusters else old(registry.file)) &&
            registry.writes == old(registry.writes) + (if step.created then 1 else 0)
    ensures !store.inTransaction
    ensures ClusterColumn !in store.columns ==>
            report == Aborted(Schema.NoSuchColumn(ClusterColumn)) && store.rows == old(store.rows) &&
            store.committed == old(store.committed) && store.commitLog == old(store.commitLog)
    ensures ClusterColumn in store.columns ==>
            var pass := FallbackPass(old(store.rows), miscId, order, store.refused);
            var skipped := |SkippedPositions(old(store.rows), order, store.refused)|;
            report == Completed(pass.count, skipped) && pass.count + skipped == |order| &&
            store.rows == pass.table &&
            store.committed == store.rows &&
            store.commitLog == old(store.commitLog) + BatchMarks(pass.count) + [pass.count]
  {
    miscId := registry.EnsureMisc();
    if ClusterColumn !in store.columns {
      return miscId, Aborted(Schema.NoSuchColumn(ClusterColumn));
    }
    FallbackPassSkipped(store.rows, miscId, order, store.refused);
    var updated := AssignFallback(store, miscId, order);
    report := Completed(updated, |order| - updated);
  }
}
