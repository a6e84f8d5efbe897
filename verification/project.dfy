/** The `Project` iterator (`QueryIterator/Operators.cpp`): each child row
    cut down to the selected columns, in selection order. */
module ProjectIterator {
  import opened Results
  import opened Streams
  import opened Selectors

  /** `Project(input, columns)`: the selector is built over the child's columns. */
  datatype Project = Project(input: Stream, selector: Selector) {
    predicate Valid() {
      input.Valid() && selector.Valid() && selector.arity == input.arity
    }

    /** The rows the coming `next()` calls will hand out, up to `NULL`. */
    function Pending(): seq<Tuple>
      requires Valid()
    {
      Projected(selector, input.Remaining())
    }

    predicate SameSetup(other: Project) {
      selector == other.selector && input.SameSource(other.input)
    }
  }

  /** Every row of `rows`, cut down to the columns `s` selects. */
  function Projected(s: Selector, rows: seq<Tuple>): seq<Tuple>
    requires s.Valid() && HasArity(rows, s.arity)
    decreases |rows|
  {
    if rows == [] then [] else [Pick(rows[0], s.selected)] + Projected(s, rows[1..])
  }

  /** One output row per input row, each the input row at the selected positions. */
  lemma {:induction false} ProjectedRows(s: Selector, rows: seq<Tuple>)
    requires s.Valid() && HasArity(rows, s.arity)
    ensures |Projected(s, rows)| == |rows|
    ensures forall k | 0 <= k < |rows| :: Projected(s, rows)[k] == Pick(rows[k], s.selected)
    decreases |rows|
  {
    if rows != [] {
      ProjectedRows(s, rows[1..]);
      var out := Projected(s, rows);
      forall k | 0 <= k < |rows| ensures out[k] == Pick(rows[k], s.selected) {
        if k > 0 {
          assert out[k] == Projected(s, rows[1..])[k - 1];
          assert rows[k] == rows[1..][k - 1];
        }
      }
    }
  }

  /** The constructor. Positions outside the child's columns are not modelled. */
  function NewProject(input: Stream, columns: seq<nat>): (st: Project)
    requires input.Valid()
    requires forall i | 0 <= i < |columns| :: columns[i] < input.arity
    ensures st.Valid() && st.input == input && st.selector.selected == columns
  {
    Project(input, NewSelector(input.arity, columns))
  }

  /** `n_columns()`: the number of selected columns. */
  function ProjectColumns(st: Project): nat {
    |st.selector.selected|
  }

  /** `open()`: the whole projected child is pending. */
  function ProjectOpen(st: Project): (st': Project)
    requires st.Valid()
    ensures st'.Valid() && st'.SameSetup(st)
    ensures st'.Pending() == Projected(st.selector, st.input.rows)
  {
    st.(input := StreamOpen(st.input))
  }

  /** `close()`: closing the child leaves nothing pending. */
  function ProjectClose(st: Project): (st': Project)
    requires st.Valid()
    ensures st'.Valid() && st'.SameSetup(st) && st'.Pending() == []
  {
    st.(input := StreamClose(st.input))
  }

  /** The loop building the projected row: value `i` is the input's value at `selected(i)`. */
  method ProjectRow(row: Tuple, sel: seq<nat>) returns (projected: Tuple)
    requires forall i | 0 <= i < |sel| :: sel[i] < |row|
    ensures |projected| == |sel|
    ensures forall i | 0 <= i < |sel| :: projected[i] == row[sel[i]]
  {
    projected := [];
    var i := 0;
    while i < |sel|
      invariant 0 <= i <= |sel|
      invariant |projected| == i
      invariant forall k | 0 <= k < i :: projected[k] == row[sel[k]]
    {
      projected := projected + [row[sel[i]]];
      i := i + 1;
    }
  }

  /** `next()`: `NULL` exactly when the child is exhausted; otherwise the
      child's next row cut down to `n_columns()` selected values, having
      consumed exactly that one child row. */
  method ProjectNext(st: Project) returns (row: Option<Tuple>, st': Project)
    requires st.Valid()
    ensures st'.Valid() && st'.SameSetup(st)
    ensures st.Pending() == Emit(row) + st'.Pending()
    ensures row.None? <==> st.input.Exhausted()
    ensures row.Some? ==> |row.value| == ProjectColumns(st)
    ensures row.Some? ==> st'.input.pos == st.input.pos + 1
  {
    var next := StreamNext(st.input);
    st' := st.(input := next.1);
    if next.0.None? {
      row := None;
    } else {
      var x := next.0.value;
      var projected := ProjectRow(x, st.selector.selected);
      row := Some(projected);
      assert st.input.Remaining() == [x] + next.1.Remaining();
      assert projected == Pick(x, st.selector.selected);
      assert st.Pending() == [projected] + Projected(st.selector, next.1.Remaining());
    }
  }

  /** The caller's loop: `next()` until `NULL`. */
  method ProjectAll(st: Project) returns (out: seq<Tuple>, st': Project)
    requires st.Valid()
    ensures out == st.Pending()
    ensures st'.Valid() && st'.SameSetup(st) && st'.Pending() == []
  {
    out := [];
    st' := st;
    while true
      invariant st'.Valid() && st'.SameSetup(st)
      invariant out + st'.Pending() == st.Pending()
      decreases |st'.Pending()|
    {
      var row;
      ghost var before := st'.Pending();
      row, st' := ProjectNext(st');
      if row.None? {
        return;
      }
      Consume(out, row.value, before, st'.Pending(), st.Pending());
      out := out + [row.value];
    }
  }

  /** `open()` then `next()` until `NULL`: one output row per child row, in
      order, each holding the child row's values at the selected positions. */
  method ProjectRun(st: Project) returns (out: seq<Tuple>)
    requires st.Valid()
    ensures |out| == |st.input.rows|
    ensures forall k | 0 <= k < |out| ::
      |out[k]| == ProjectColumns(st) &&
      forall i | 0 <= i < ProjectColumns(st) :: out[k][i] == st.input.rows[k][st.selector.selected[i]]
  {
    var done;
    out, done := ProjectAll(ProjectOpen(st));
    ProjectedRows(st.selector, st.input.rows);
  }
}
