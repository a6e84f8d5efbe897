/** The row of the relational-algebra store (`RelationalAlgebra/Row.cpp`).
    A row refers to its table only to read the table's column
    names, so the model keeps those names (`schema`) beside the values. */
module Rows {
  import opened Results
  import opened Seqs

  /** 2^64: `size()` is an `unsigned long`. */
  const SizeBound: int := 0x1_0000_0000_0000_0000
  /** 2^32: `at` takes an `unsigned`. */
  const IndexBound: int := 0x1_0000_0000

  datatype Row = Row(schema: seq<string>, values: seq<string>) {
    /** `append` never lets a row hold more values than its table has columns. */
    predicate Valid() {
      |values| <= |schema|
    }
  }

  /** `Row(table)`: a row of the given table, holding no value yet. */
  function NewRow(schema: seq<string>): (r: Row)
    ensures r.Valid() && r.schema == schema
    ensures Size(r) == 0 && Data(r) == []
  {
    Row(schema, [])
  }

  /** `size()`: how many values have been appended; never more than the columns. */
  function Size(r: Row): (n: nat)
    ensures r.Valid() ==> n <= |r.schema|
  {
    |r.values|
  }

  /** `data()`: the appended values, in append order. */
  function Data(r: Row): (d: seq<string>)
    ensures |d| == Size(r)
  {
    r.values
  }

  /** `append(value)`: pushes at the end while the row is short of its arity,
      and throws otherwise, leaving the row as it was. */
  function Append(r: Row, v: string): (res: Result<Row>)
    ensures res.Ok? <==> Size(r) < |r.schema|
    ensures res.Ok? ==> res.value.schema == r.schema && Data(res.value) == Data(r) + [v]
    ensures res.Ok? && r.Valid() ==> res.value.Valid()
    ensures res.Err? ==> res.error == RowFull
  {
    if |r.schema| > |r.values| then Ok(Row(r.schema, r.values + [v])) else Err(RowFull)
  }

  /** Appending `vs` one value at a time, stopping at the first throw. */
  function AppendAll(r: Row, vs: seq<string>): (res: Result<Row>)
    requires r.Valid()
    ensures res.Ok? <==> Size(r) + |vs| <= |r.schema|
    ensures res.Ok? ==> res.value.schema == r.schema && Data(res.value) == Data(r) + vs
    ensures res.Err? ==> res.error == RowFull
    decreases |vs|
  {
    if vs == [] then
      assert r.values + vs == r.values;
      Ok(r)
    else
      var r' :- Append(r, vs[0]);
      assert r.values + vs == r'.values + vs[1..];
      AppendAll(r', vs[1..])
  }

  /** The bounds test of `at(i)` as the source writes it:
      `i >= 0 && i <= size() - 1` on unsigned operands, so `size() - 1`
      wraps to 2^64 - 1 when the row is empty. */
  function AtGuardAsWritten(size: nat, i: nat): (admits: bool)
    requires size < SizeBound && i < IndexBound
    ensures size > 0 ==> (admits <==> i < size)
    ensures size == 0 ==> admits
  {
    i <= (size - 1) % SizeBound
  }

  /** `at(i)` with the bounds test it evidently intends: the value at
      position `i` when there is one, and a throw otherwise, the empty row included. */
  function At(r: Row, i: nat): (res: Result<string>)
    ensures res.Ok? <==> i < Size(r)
    ensures res.Ok? ==> res.value == Data(r)[i]
    ensures res.Err? ==> res.error == NoSuchPosition
  {
    if i < |r.values| then Ok(r.values[i]) else Err(NoSuchPosition)
  }

  /** `value(column)`: the value at the column's position in the schema;
      throws when the schema has no such column. The source reads the value
      without a bounds test, so the caller supplies a row that has it. */
  function Value(r: Row, column: string): (res: Result<string>)
    requires column in r.schema ==> IndexOf(r.schema, column) < |r.values|
    ensures res.Ok? <==> column in r.schema
    ensures res.Err? ==> res.error == NoSuchColumn
    ensures res.Ok? && Distinct(r.schema) ==>
      forall k | 0 <= k < |r.schema| && k < |r.values| && r.schema[k] == column :: res.value == r.values[k]
  {
    if column in r.schema then
      var k := IndexOf(r.schema, column);
      assert Distinct(r.schema) ==> forall j | 0 <= j < |r.schema| && r.schema[j] == column :: j == k;
      Ok(r.values[k])
    else
      Err(NoSuchColumn)
  }

  /** `operator==`: compares the two rows' tables column name by column name.
      The values never take part, so any two rows of one table are "equal". */
  method Equal(a: Row, b: Row) returns (eq: bool)
    ensures eq <==> a.schema == b.schema
  {
    var x, y := a.schema, b.schema;
    if |x| != |y| {
      return false;
    }
    var i := 0;
    while i < |x|
      invariant 0 <= i <= |x|
      invariant x[..i] == y[..i]
    {
      if y[i] != x[i] {
        return false;
      }
      assert x[..i + 1] == x[..i] + [x[i]] && y[..i + 1] == y[..i] + [y[i]];
      i := i + 1;
    }
    assert x == x[..i] && y == y[..i];
    return true;
  }

  /** `operator!=`: the negation of `operator==`. */
  method NotEqual(a: Row, b: Row) returns (ne: bool)
    ensures ne <==> a.schema != b.schema
  {
    var eq := Equal(a, b);
    ne := !eq;
  }
}
