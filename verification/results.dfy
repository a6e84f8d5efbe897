/** Failure-compatible wrappers shared by the row store, the relational
    algebra and the iterators. The source signals errors with C++
    exceptions; here each exception becomes an `Err` value. */
module Results {

  /** The conditions under which the row store and the relational algebra throw.
      `TableException`, `UnionIncompatibilityException` and `JoinException`
      are told apart by constructor. */
  datatype Error =
    | NoColumns            // Table constructor: empty column list
    | DuplicateColumns     // Table constructor: a column name occurs twice
    | TooManyValues        // Table::add: more values than columns
    | TooFewValues         // Table::add: fewer values than columns
    | IncompatibleRow      // Table::remove and Table::has: arity mismatch
    | RowFull              // Row::append on a row that already has every value
    | NoSuchPosition       // Row::at past the last value
    | NoSuchColumn         // Row::value of a name outside the schema
    | UnionIncompatible    // onion, intersect, diff: column counts differ
    | ColumnsNotDisjoint   // product: the tables share a column name
    | RenameCountMismatch  // rename: map size differs from the column count
    | RenameTwice          // rename: the map names a column twice
    | RenameMissing        // rename: a key that is not a column
    | EmptyProjection      // project: no columns requested
    | ProjectMissing       // project: a requested name is not a column
    | NoCommonColumns      // join: no column name in common (JoinException)

  datatype Result<+T> = Ok(value: T) | Err(error: Error) {

    predicate IsFailure() {
      Err?
    }

    function PropagateFailure<U>(): Result<U>
      requires Err?
    {
      Err(error)
    }

    function Extract(): T
      requires Ok?
    {
      value
    }
  }

  /** What `next()` hands back: a row, or the `NULL` that signals exhaustion. */
  datatype Option<+T> = None | Some(value: T)
}
