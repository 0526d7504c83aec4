/** The migration that adds `full_text` to `documents` and fills it from
    each document's file, counting successes and failures. */
module TextColumn {
  import opened Values
  import Schema

  const TextColumnName: string := "full_text"

  /** The columns of a document the migration reads and writes. */
  datatype Document = Document(docId: string, filePath: string, fullText: Option<string>)

  /** `UPDATE documents SET full_text = ? WHERE id = ?`: a missing id
      matches no row and changes nothing. */
  function WithFullText(table: map<int, Document>, id: int, text: string): map<int, Document>
  {
    if id in table then table[id := table[id].(fullText := Some(text))] else table
  }

  /** The `documents` table. Each UPDATE runs outside any explicit
      transaction, so it is durable as soon as it returns. */
  class DocumentStore {
    var columns: set<string>
    var rows: map<int, Document>
    /** Ids whose UPDATE the storage engine fails: the environment's
        choice, fixed for the run. */
    const refused: set<int>

    constructor (columns: set<string>, rows: map<int, Document>, refused: set<int>)
      ensures this.columns == columns && this.rows == rows && this.refused == refused
    {
      this.columns := columns;
      this.rows := rows;
      this.refused := refused;
    }

    /** `ALTER TABLE documents ADD COLUMN full_text TEXT` and the script's
        try/catch around it. */
    method AddColumn(name: string, fault: Option<string>) returns (step: Schema.ColumnStep)
      modifies this`columns
      ensures step == Schema.ColumnStepOf(Schema.Alter(old(columns), name, fault))
      ensures columns == Schema.ColumnsAfter(old(columns), name, fault)
    {
      var result := Schema.Alter(columns, name, fault);
      if result.Ok? {
        columns := columns + {name};
      }
      step := Schema.ColumnStepOf(result);
    }

    /** `updateStmt.run(text, doc.id)`: `ok` is false when the engine
        throws, and then nothing changes. */
    method WriteFullText(id: int, text: string) returns (ok: bool)
      modifies this`rows
      ensures ok == (id !in refused)
      ensures rows == if ok then WithFullText(old(rows), id, text) else old(rows)
    {
      ok := id !in refused;
      if ok {
        rows := WithFullText(rows, id, text);
      }
    }
  }

  /** A document whose file can be read and whose UPDATE the engine
      accepts; any other document lands in the catch block. `files` maps
      each readable path to its UTF-8 contents. */
  predicate Ingested(doc: Document, id: int, files: map<string, string>, refused: set<int>)
  {
    doc.filePath in files && id !in refused
  }

  /** The table and the two counters of the loop. */
  datatype Tally = Tally(table: map<int, Document>, successes: nat, errors: nat)

  /** The loop over the selected documents, visited in `order`: each
      document's path comes from the rows as selected before the loop. */
  function IngestPass(selected: map<int, Document>, files: map<string, string>, order: seq<int>,
                      refused: set<int>): Tally
    requires forall i | 0 <= i < |order| :: order[i] in selected
  {
    if order == [] then Tally(selected, 0, 0)
    else
      var earlier := IngestPass(selected, files, order[..|order| - 1], refused);
      var id := order[|order| - 1];
      var doc := selected[id];
      if Ingested(doc, id, files, refused)
      then Tally(WithFullText(earlier.table, id, files[doc.filePath]), earlier.successes + 1, earlier.errors)
      else Tally(earlier.table, earlier.successes, earlier.errors + 1)
  }

  /** After the pass a visited document that was ingested holds its file's
      contents; every other document is as selected, and no row appears or
      disappears. */
  lemma {:induction false} IngestPassRow(selected: map<int, Document>, files: map<string, string>,
                                         order: seq<int>, refused: set<int>, id: int)
    requires forall i | 0 <= i < |order| :: order[i] in selected
    requires id in selected
    ensures var table := IngestPass(selected, files, order, refused).table;
            table.Keys == selected.Keys &&
            table[id] == if id in order && Ingested(selected[id], id, files, refused)
                         then selected[id].(fullText := Some(files[selected[id].filePath]))
                         else selected[id]
  {
    if order != [] {
      var init := order[..|order| - 1];
      var last := order[|order| - 1];
      IngestPassRow(selected, files, init, refused, id);
      IngestPassRow(selected, files, init, refused, last);
      assert id in order <==> id in init || id == last;
    }
  }

  /** The pass adds and removes no rows. */
  lemma {:induction false} IngestPassKeys(selected: map<int, Document>, files: map<string, string>,
                                          order: seq<int>, refused: set<int>)
    requires forall i | 0 <= i < |order| :: order[i] in selected
    ensures IngestPass(selected, files, order, refused).table.Keys == selected.Keys
  {
    if order != [] {
      IngestPassKeys(selected, files, order[..|order| - 1], refused);
    }
  }

  /** The positions of `order` whose document is ingested. */
  ghost function IngestedPositions(selected: map<int, Document>, files: map<string, string>, order: seq<int>,
                                   refused: set<int>): set<int>
  {
    set i | 0 <= i < |order| && order[i] in selected && Ingested(selected[order[i]], order[i], files, refused)
  }

  /** Every visit is counted exactly once: as a success when the document
      is ingested, as an error otherwise. */
  lemma {:induction false} IngestPassCount(selected: map<int, Document>, files: map<string, string>,
                                           order: seq<int>, refused: set<int>)
    requires forall i | 0 <= i < |order| :: order[i] in selected
    ensures var tally := IngestPass(selected, files, order, refused);
            tally.successes == |IngestedPositions(selected, files, order, refused)| &&
            tally.successes + tally.errors == |order|
  {
    if order != [] {
      var n := |order| - 1;
      var init := order[..n];
      IngestPassCount(selected, files, init, refused);
      var before := IngestedPositions(selected, files, init, refused);
      assert n !in before;
      if Ingested(selected[order[n]], order[n], files, refused) {
        assert IngestedPositions(selected, files, order, refused) == before + {n};
      } else {
        assert IngestedPositions(selected, files, order, refused) == before;
      }
    }
  }

  /** Running the migration again over its own output, with the same files
      and an engine that refuses the same ids, leaves the table as the first
      run left it and reports the same counts. */
  lemma IngestPassTwice(selected: map<int, Document>, files: map<string, string>, order: seq<int>,
                        refused: set<int>)
    requires forall i | 0 <= i < |order| :: order[i] in selected
    ensures var first := IngestPass(selected, files, order, refused);
            (forall i | 0 <= i < |order| :: order[i] in first.table) &&
            IngestPass(first.table, files, order, refused) == first
  {
    var first := IngestPass(selected, files, order, refused);
    IngestPassKeys(selected, files, order, refused);
    forall i | 0 <= i < |order| ensures order[i] in first.table {
      IngestPassRow(selected, files, order, refused, order[i]);
    }
    var second := IngestPass(first.table, files, order, refused);
    IngestPassKeys(first.table, files, order, refused);
    forall id | id in selected ensures id in second.table && second.table[id] == first.table[id] {
      IngestPassRow(selected, files, order, refused, id);
      IngestPassRow(first.table, files, order, refused, id);
    }
    assert IngestedPositions(first.table, files, order, refused) == IngestedPositions(selected, files, order, refused) by {
      forall i | 0 <= i < |order| ensures first.table[order[i]].filePath == selected[order[i]].filePath {
        IngestPassRow(selected, files, order, refused, order[i]);
      }
    }
    IngestPassCount(selected, files, order, refused);
    IngestPassCount(first.table, files, order, refused);
    assert second.table == first.table;
  }

  /** The read-and-update loop: one guarded read and UPDATE per selected
      document. `files` stands for the file system under the working
      directory. */
  method IngestAll(store: DocumentStore, files: map<string, string>, order: seq<int>)
    returns (successes: nat, errors: nat)
    requires forall i | 0 <= i < |order| :: order[i] in store.rows
    modifies store`rows
    ensures var tally := IngestPass(old(store.rows), files, order, store.refused);
            store.rows == tally.table && successes == tally.successes && errors == tally.errors
  {
    var selected := store.rows;
    successes, errors := 0, 0;
    for k := 0 to |order|
      invariant IngestPass(selected, files, order[..k], store.refused) == Tally(store.rows, successes, errors)
    {
      assert order[..k + 1][..k] == order[..k];
      var id := order[k];
      var doc := selected[id];
      if doc.filePath in files {
        var text := files[doc.filePath];
        var ok := store.WriteFullText(id, text);
        if ok {
          successes := successes + 1;
        } else {
          errors := errors + 1;
        }
      } else {
        errors := errors + 1;
      }
    }
    assert order[..|order|] == order;
  }

  /** How a run ends. */
  datatype Report = Aborted(message: string) | Completed(successes: nat, errors: nat)

  /** The whole script: the idempotent ALTER, then the loop. A fatal ALTER
      error ends the run before any document is touched, and so does a
      continued step that left the column missing: preparing the UPDATE
      then throws. */
  method Run(store: DocumentStore, files: map<string, string>, order: seq<int>, fault: Option<string>)
    returns (report: Report)
    requires forall i | 0 <= i < |order| :: order[i] in store.rows
    modifies store
    ensures store.columns == Schema.ColumnsAfter(old(store.columns), TextColumnName, fault)
    ensures var step := Schema.ColumnStepOf(Schema.Alter(old(store.columns), TextColumnName, fault));
            if step.Fatal? then
              report == Aborted(step.message) && store.rows == old(store.rows)
            else if TextColumnName !in store.columns then
              report == Aborted(Schema.NoSuchColumn(TextColumnName)) && store.rows == old(store.rows)
            else
              var tally := IngestPass(old(store.rows), files, order, store.refused);
              report == Completed(tally.successes, tally.errors) && store.rows == tally.table &&
              tally.successes + tally.errors == |order|
  {
    var step := store.AddColumn(TextColumnName, fault);
    if step.Fatal? {
      return Aborted(step.message);
    }
    if TextColumnName !in store.columns {
      return Aborted(Schema.NoSuchColumn(TextColumnName));
    }
    IngestPassCount(store.rows, files, order, store.refused);
    var successes, errors := IngestAll(store, files, order);
    report := Completed(successes, errors);
  }
}
