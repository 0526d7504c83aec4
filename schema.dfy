/** The idempotent "add column" step shared by two migrations: an
    `ALTER TABLE ... ADD COLUMN` whose "duplicate column name" failure is
    taken as success and whose every other failure aborts the run. */
module Schema {
  import opened Values

  /** What the storage engine answers to ALTER TABLE ... ADD COLUMN. */
  datatype AlterResult = Ok | Err(message: string)

  /** What the script makes of that answer. */
  datatype ColumnStep = Added | AlreadyExists | Fatal(message: string)

  const DuplicateColumn: string := "duplicate column name"

  /** `text.startsWith(prefix)` */
  predicate StartsWith(text: string, prefix: string)
  {
    |prefix| <= |text| && text[..|prefix|] == prefix
  }

  /** `text.includes(fragment)`, scanning from the left. */
  predicate Contains(text: string, fragment: string)
    decreases |text|
  {
    StartsWith(text, fragment) || (text != [] && Contains(text[1..], fragment))
  }

  /** The fragment occurs in the text at offset `i`. */
  predicate OccursAt(text: string, fragment: string, i: int)
  {
    0 <= i <= |text| - |fragment| && text[i..i + |fragment|] == fragment
  }

  /** `Contains` holds exactly when the fragment occurs at some offset. */
  lemma {:induction false} ContainsAtOffset(text: string, fragment: string)
    ensures Contains(text, fragment) <==> exists i :: OccursAt(text, fragment, i)
    decreases |text|
  {
    if StartsWith(text, fragment) {
      assert OccursAt(text, fragment, 0);
    } else if text == [] {
      assert |fragment| > 0;
    } else {
      ContainsAtOffset(text[1..], fragment);
      var tail := text[1..];
      if exists i :: OccursAt(text, fragment, i) {
        var i :| OccursAt(text, fragment, i);
        assert i != 0;
        assert tail[i - 1..i - 1 + |fragment|] == text[i..i + |fragment|];
        assert OccursAt(tail, fragment, i - 1);
      }
      if exists j :: OccursAt(tail, fragment, j) {
        var j :| OccursAt(tail, fragment, j);
        assert text[j + 1..j + 1 + |fragment|] == tail[j..j + |fragment|];
        assert OccursAt(text, fragment, j + 1);
      }
    }
  }

  /** A text that starts with the fragment contains it, whatever follows. */
  lemma ContainsPrefix(fragment: string, rest: string)
    ensures Contains(fragment + rest, fragment)
  {
    assert (fragment + rest)[..|fragment|] == fragment;
  }

  /** The try/catch around the ALTER: success and an error whose message
      has "duplicate column name" at some offset let the run continue, any
      other error is rethrown unchanged. */
  function ColumnStepOf(result: AlterResult): (step: ColumnStep)
    ensures step == Added <==> result.Ok?
    ensures step == AlreadyExists <==>
            result.Err? && exists i :: OccursAt(result.message, DuplicateColumn, i)
    ensures step.Fatal? <==>
            result.Err? && forall i :: !OccursAt(result.message, DuplicateColumn, i)
    ensures step.Fatal? ==> step.message == result.message
  {
    match result
    case Ok => Added
    case Err(message) =>
      ContainsAtOffset(message, DuplicateColumn);
      if Contains(message, DuplicateColumn) then AlreadyExists else Fatal(message)
  }

  /** SQLite's error when a statement names a column the table lacks: what
      `db.prepare` throws, outside any try, once the step has let a run
      continue without the column. */
  function NoSuchColumn(name: string): string
  {
    "no such column: " + name
  }

  /** The storage engine's answer, as far as the scripts depend on it: an
      environmental failure (locked or missing table, full disk) given by
      `fault`, otherwise SQLite's "duplicate column name: <name>" when the
      column exists, otherwise success. */
  function Alter(columns: set<string>, name: string, fault: Option<string>): AlterResult
  {
    if fault.Some? then Err(fault.value)
    else if name in columns then Err(DuplicateColumn + ": " + name)
    else Ok
  }

  /** The schema after the ALTER: the column is there exactly when the
      engine accepted it or it was already there. */
  function ColumnsAfter(columns: set<string>, name: string, fault: Option<string>): set<string>
  {
    if Alter(columns, name, fault).Ok? then columns + {name} else columns
  }

  /** Running the step on a schema that lacks the column adds it, running it
      again finds it and continues: the step is safe to re-run. */
  lemma {:induction false} AddColumnTwice(columns: set<string>, name: string)
    ensures !ColumnStepOf(Alter(columns, name, None)).Fatal?
    ensures var once := ColumnsAfter(columns, name, None);
            name in once &&
            ColumnStepOf(Alter(once, name, None)) == AlreadyExists &&
            ColumnsAfter(once, name, None) == once
  {
    var once := ColumnsAfter(columns, name, None);
    ContainsPrefix(DuplicateColumn, ": " + name);
    assert DuplicateColumn + ": " + name == DuplicateColumn + (": " + name);
    if name in columns {
      assert once == columns;
    }
  }

  /** An engine failure whose message does not mention a duplicate column
      stops the run with that message; one that does mention it lets the
      run continue even though the column was not added. */
  lemma {:induction false} OtherFailuresAreFatal(columns: set<string>, name: string, message: string)
    ensures !Contains(message, DuplicateColumn) ==>
            ColumnStepOf(Alter(columns, name, Some(message))) == Fatal(message)
    ensures Contains(message, DuplicateColumn) ==>
            ColumnStepOf(Alter(columns, name, Some(message))) == AlreadyExists &&
            ColumnsAfter(columns, name, Some(message)) == columns
  {
  }
}
