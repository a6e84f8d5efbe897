/** The `Select` iterator (`QueryIterator/Operators.cpp`): passes on the
    rows of its child that the predicate accepts. Rejected rows are
    reclaimed in the source; here they are simply not handed out. */
module SelectIterator {
  import opened Results
  import opened Seqs
  import opened Streams

  /** `Select(input, predicate)`; `RowPredicate` is any pure test of a row. */
  datatype Select = Select(input: Stream, predicate_: Tuple -> bool) {
    predicate Valid() {
      input.Valid()
    }

    /** The rows the coming `next()` calls will hand out, up to `NULL`. */
    function Pending(): seq<Tuple>
      requires Valid()
    {
      Filter(predicate_, input.Remaining())
    }

    ghost predicate SameSetup(other: Select) {
      predicate_ == other.predicate_ && input.SameSource(other.input)
    }
  }

  /** `n_columns()`: the child's. */
  function SelectColumns(st: Select): nat {
    st.input.arity
  }

  /** `open()`: opening the child makes the whole filtered child pending. */
  function SelectOpen(st: Select): (st': Select)
    requires st.Valid()
    ensures st'.Valid() && st'.SameSetup(st)
    ensures st'.Pending() == Filter(st.predicate_, st.input.rows)
  {
    st.(input := StreamOpen(st.input))
  }

  /** `close()`: closing the child leaves nothing pending. */
  function SelectClose(st: Select): (st': Select)
    requires st.Valid()
    ensures st'.Valid() && st'.SameSetup(st) && st'.Pending() == []
  {
    st.(input := StreamClose(st.input))
  }

  /** `next()`: pulls from the child until a row passes the predicate or the
      child answers `NULL`. The row handed out passes the predicate, no
      accepted row is skipped, and `NULL` comes only once none is left. */
  method SelectNext(st: Select) returns (row: Option<Tuple>, st': Select)
    requires st.Valid()
    ensures st'.Valid() && st'.SameSetup(st)
    ensures st.Pending() == Emit(row) + st'.Pending()
    ensures row.Some? ==> st.predicate_(row.value) && |row.value| == SelectColumns(st)
    ensures row.None? ==> st.Pending() == [] && st'.input.Exhausted()
  {
    var p := st.predicate_;
    var input := st.input;
    row, input := StreamNext(input).0, StreamNext(input).1;
    while row.Some? && !p(row.value)
      invariant input.Valid() && input.SameSource(st.input)
      invariant st.Pending() == Filter(p, Emit(row) + input.Remaining())
      invariant row.Some? ==> |row.value| == st.input.arity
      invariant row.None? ==> input.Exhausted()
      decreases |input.Remaining()| + |Emit(row)|
    {
      FilterAppend(p, Emit(row), input.Remaining());
      row, input := StreamNext(input).0, StreamNext(input).1;
    }
    FilterAppend(p, Emit(row), input.Remaining());
    st' := st.(input := input);
  }

  /** The caller's loop: `next()` until `NULL`; afterwards `next()` keeps answering `NULL`. */
  method SelectAll(st: Select) returns (out: seq<Tuple>, st': Select)
    requires st.Valid()
    ensures out == st.Pending()
    ensures st'.Valid() && st'.SameSetup(st) && st'.Pending() == []
  {
    out := [];
    st' := st;
    while true
      invariant st'.Valid() && st'.SameSetup(st)
      invariant out + st'.Pending() == st.Pending()
      decreases |st'.Pending()|
    {
      var row;
      ghost var before := st'.Pending();
      row, st' := SelectNext(st');
      if row.None? {
        return;
      }
      Consume(out, row.value, before, st'.Pending(), st.Pending());
      out := out + [row.value];
    }
  }

  /** `open()` then `next()` until `NULL`: the child's rows that pass the
      predicate, in the child's order. */
  method SelectRun(st: Select) returns (out: seq<Tuple>)
    requires st.Valid()
    ensures out == Filter(st.predicate_, st.input.rows)
    ensures forall x :: x in out <==> x in st.input.rows && st.predicate_(x)
  {
    var done;
    out, done := SelectAll(SelectOpen(st));
    FilterMembers(st.predicate_, st.input.rows);
  }
}
