/** The table of the relational-algebra store (`RelationalAlgebra/Table.cpp`):
    a name, an ordered list of distinct column names, and a set of rows.
    The source keeps the rows in a `RowSet` ordered by `RowCompare`; the
    model keeps the set of their value sequences, which is what that
    ordering makes unique. */
module Tables {
  import opened Results
  import opened Seqs

  /** `name()` is `name` and `columns()` is `columns`. */
  datatype Table = Table(name: string, columns: seq<string>, rows: set<seq<string>>) {
    /** What the constructor and `add` guarantee of every table. */
    predicate Valid() {
      && |columns| > 0
      && Distinct(columns)
      && forall row | row in rows :: |row| == |columns|
    }
  }

  /** `Table(name, columns)`: throws on an empty column list and on a
      column list whose element set is smaller than the list. */
  function MakeTable(name: string, columns: seq<string>): (res: Result<Table>)
    ensures res.Ok? <==> |columns| > 0 && Distinct(columns)
    ensures res.Err? ==> (if |columns| == 0 then res.error == NoColumns else res.error == DuplicateColumns)
    ensures res.Ok? ==> res.value.Valid() && res.value.rows == {}
    ensures res.Ok? ==> res.value.name == name && res.value.columns == columns
  {
    ElementsCardinality(columns);
    if |columns| == 0 then Err(NoColumns)
    else if |Elements(columns)| < |columns| then Err(DuplicateColumns)
    else Ok(Table(name, columns, {}))
  }

  /** `add(row)`: throws when the row has too many or too few values; otherwise
      inserts it and answers whether it was new. The name and columns never change. */
  function Add(t: Table, values: seq<string>): (res: Result<(Table, bool)>)
    ensures res.Ok? <==> |values| == |t.columns|
    ensures res.Err? ==> res.error == (if |values| > |t.columns| then TooManyValues else TooFewValues)
    ensures res.Ok? ==> res.value.0.name == t.name && res.value.0.columns == t.columns
    ensures res.Ok? ==> res.value.0.rows == t.rows + {values}
    ensures res.Ok? ==> (res.value.1 <==> values !in t.rows)
    ensures res.Ok? && t.Valid() ==> res.value.0.Valid()
  {
    if |values| > |t.columns| then Err(TooManyValues)
    else if |values| < |t.columns| then Err(TooFewValues)
    else if values in t.rows then Ok((t, false))
    else Ok((t.(rows := t.rows + {values}), true))
  }

  /** `remove(row)`: throws on an arity mismatch; otherwise deletes the row if
      present and answers whether it was. */
  function Remove(t: Table, values: seq<string>): (res: Result<(Table, bool)>)
    ensures res.Ok? <==> |values| == |t.columns|
    ensures res.Err? ==> res.error == IncompatibleRow
    ensures res.Ok? ==> res.value.0.name == t.name && res.value.0.columns == t.columns
    ensures res.Ok? ==> res.value.0.rows == t.rows - {values}
    ensures res.Ok? ==> (res.value.1 <==> values in t.rows)
    ensures res.Ok? && t.Valid() ==> res.value.0.Valid()
  {
    if |values| == |t.columns| then
      if values in t.rows then Ok((t.(rows := t.rows - {values}), true))
      else Ok((t, false))
    else
      Err(IncompatibleRow)
  }

  /** `has(row)`: throws on an arity mismatch; otherwise answers membership. */
  function Has(t: Table, values: seq<string>): (res: Result<bool>)
    ensures res.Ok? <==> |values| == |t.columns|
    ensures res.Err? ==> res.error == IncompatibleRow
    ensures res.Ok? ==> (res.value <==> values in t.rows)
  {
    if |values| == |t.columns| then Ok(values in t.rows) else Err(IncompatibleRow)
  }

  /** Adding a row that is already there answers false and changes nothing. */
  lemma AddPresentIsNoOp(t: Table, values: seq<string>)
    requires values in t.rows && |values| == |t.columns|
    ensures Add(t, values) == Ok((t, false))
  {
    assert t.rows + {values} == t.rows;
  }

  /** `remove` undoes an `add` that inserted a new row, and `has` sees the row in between. */
  lemma AddThenRemove(t: Table, values: seq<string>)
    requires values !in t.rows && |values| == |t.columns|
    ensures Add(t, values).Ok? && Add(t, values).value.1
    ensures Has(Add(t, values).value.0, values) == Ok(true)
    ensures Remove(Add(t, values).value.0, values) == Ok((t, true))
  {
    var t' := Add(t, values).value.0;
    assert t'.rows - {values} == t.rows;
  }
}
