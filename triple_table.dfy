/** The `rdf_triples` table as the two classification migrations see it,
    with the explicit BEGIN/COMMIT transactions they drive and the
    "commit every 1000 successful updates" schedule they share. */
module TripleTable {
  import opened Values
  import Schema

  /** The column both classification migrations write. */
  const ClusterColumn: string := "top_cluster_ids"

  /** Successful row updates per transaction. */
  const BatchSize: nat := 1000

  /** The two list-valued columns of a triple the migrations touch. */
  datatype TripleRow = TripleRow(tags: Stored<string>, clusterIds: Stored<int>)

  /** The success counts at which the in-loop COMMITs of a pass happen, for a
      pass that ends with `count` successes: every multiple of the batch
      size up to `count`. */
  function BatchMarks(count: nat): (marks: seq<nat>)
    ensures |marks| == count / BatchSize
    ensures forall i :: 0 <= i < |marks| ==> marks[i] == (i + 1) * BatchSize
  {
    if count == 0 then []
    else BatchMarks(count - 1) + (if count % BatchSize == 0 then [count] else [])
  }

  /** One more success adds a mark exactly when it completes a batch. */
  lemma BatchMarksNext(count: nat)
    ensures BatchMarks(count + 1) == BatchMarks(count) + (if (count + 1) % BatchSize == 0 then [count + 1] else [])
  {
  }

  /** A pass's table so far and its count of successful updates. */
  datatype Progress = Progress(table: map<int, TripleRow>, count: nat)

  /** A pass with 2500 successes commits three times: at 1000, at 2000, and
      at the end. */
  lemma ThreeCommitsFor2500()
    ensures BatchMarks(2500) + [2500] == [1000, 2000, 2500]
  {
    var marks := BatchMarks(2500);
    assert |marks| == 2 && marks[0] == 1000 && marks[1] == 2000;
  }

  /** `UPDATE rdf_triples SET top_cluster_ids = ? WHERE id = ?`: a missing
      id matches no row and changes nothing. */
  function WithClusterIds(table: map<int, TripleRow>, id: int, ids: seq<int>): map<int, TripleRow>
  {
    if id in table then table[id := table[id].(clusterIds := EncodeList(ids))] else table
  }

  class TripleStore {
    /** The table's columns. */
    var columns: set<string>
    /** The rows, by id, as the open transaction sees them. */
    var rows: map<int, TripleRow>
    /** The rows as of the last COMMIT. */
    var committed: map<int, TripleRow>
    var inTransaction: bool
    /** The success count passed to each COMMIT, in order. */
    var commitLog: seq<nat>
    /** Ids whose UPDATE the storage engine fails (a lock, a full disk, a
        constraint): the environment's choice, fixed for the run. */
    const refused: set<int>

    constructor (columns: set<string>, rows: map<int, TripleRow>, refused: set<int>)
      ensures this.columns == columns && this.rows == rows && committed == rows
      ensures !inTransaction && commitLog == [] && this.refused == refused
    {
      this.columns := columns;
      this.rows := rows;
      this.committed := rows;
      this.inTransaction := false;
      this.commitLog := [];
      this.refused := refused;
    }

    /** `ALTER TABLE rdf_triples ADD COLUMN <name> TEXT` and the script's
        try/catch around it. */
    method AddColumn(name: string, fault: Option<string>) returns (step: Schema.ColumnStep)
      modifies this`columns
      ensures step == Schema.ColumnStepOf(Schema.Alter(old(columns), name, fault))
      ensures columns == Schema.ColumnsAfter(old(columns), name, fault)
    {
      var result := Schema.Alter(columns, name, fault);
      if result.Ok? {
        columns := columns + {name};
      }
      step := Schema.ColumnStepOf(result);
    }

    /** `db.exec('BEGIN TRANSACTION')` */
    method Begin()
      requires !inTransaction
      modifies this`inTransaction
      ensures inTransaction
    {
      inTransaction := true;
    }

    /** `db.exec('COMMIT')`: what the transaction wrote becomes the committed
        state; the log records the success count reached. */
    method Commit(count: nat)
      requires inTransaction
      modifies this`committed, this`inTransaction, this`commitLog
      ensures !inTransaction && committed == rows
      ensures commitLog == old(commitLog) + [count]
    {
      committed := rows;
      inTransaction := false;
      commitLog := commitLog + [count];
    }

    /** The success bookkeeping after a row is written: count it, and at
        every multiple of the batch size COMMIT and BEGIN again. */
    method CountSuccess(count: nat) returns (next: nat)
      requires inTransaction
      modifies this`committed, this`inTransaction, this`commitLog
      ensures next == count + 1 && inTransaction
      ensures commitLog == old(commitLog) + (if next % BatchSize == 0 then [next] else [])
      ensures committed == if next % BatchSize == 0 then rows else old(committed)
      ensures next % BatchSize != 0 ==> next - next % BatchSize == count - count % BatchSize
    {
      next := count + 1;
      if next % BatchSize == 0 {
        Commit(next);
        Begin();
      }
    }

    /** `updateStmt.run(JSON.stringify(ids), id)` on top_cluster_ids:
        `ok` is false when the engine throws, and then nothing changes. */
    method WriteClusterIds(id: int, ids: seq<int>) returns (ok: bool)
      modifies this`rows
      ensures ok == (id !in refused)
      ensures rows == if ok then WithClusterIds(old(rows), id, ids) else old(rows)
    {
      ok := id !in refused;
      if ok {
        rows := WithClusterIds(rows, id, ids);
      }
    }
  }
}
