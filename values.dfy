/** Values shared by the three migrations: an optional value and the decoded
    form of a JSON list stored in a nullable TEXT column. */
module Values {

  datatype Option<+T> = None | Some(value: T)

  /** A nullable TEXT column that holds a JSON-serialised list.
      `Blank` is the empty string, which JavaScript treats as false, so the
      scripts never hand it to the parser. `Malformed` is text the parser
      rejects or that does not decode to a list; using it throws. */
  datatype Stored<+T> = Null | Blank | Parsed(items: seq<T>) | Malformed

  /** `column ? JSON.parse(column) : []`: an absent or empty column reads as
      the empty list, a stored list reads as itself, anything else throws
      (None). */
  function DecodeList<T>(column: Stored<T>): Option<seq<T>>
  {
    match column
    case Null => Some([])
    case Blank => Some([])
    case Parsed(items) => Some(items)
    case Malformed => None
  }

  /** `JSON.stringify(list)`: writing a list stores it so that it decodes back
      to the same list. */
  function EncodeList<T>(items: seq<T>): (column: Stored<T>)
    ensures DecodeList(column) == Some(items)
  {
    Parsed(items)
  }

  /** True when no value occurs twice in the sequence. */
  predicate NoDuplicates<T(==)>(s: seq<T>)
  {
    forall x | x in s :: multiset(s)[x] <= 1
  }
}
