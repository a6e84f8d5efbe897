/** The leaves of an iterator tree (`QueryIterator/Operators.cpp`): the
    abstract child every operator pulls from, the full-table scan
    `TableIterator` and the ordered range scan `IndexScan`. Rows are
    immutable values here; who owns or reclaims a row is not modelled. */
module Streams {
  import opened Results
  import opened Orders

  /** A row as the iterators hand it around: its values, in column order. */
  type Tuple = seq<string>

  /** The answer of one `next()` call as a sequence: the row, or nothing for `NULL`. */
  function Emit(row: Option<Tuple>): (out: seq<Tuple>)
    ensures |out| <= 1
    ensures row.None? <==> out == []
    ensures row.Some? ==> out == [row.value]
  {
    match row
    case None => []
    case Some(x) => [x]
  }

  /** Handing out the first pending row moves it from the pending rows to the output. */
  lemma Consume(out: seq<Tuple>, x: Tuple, pending: seq<Tuple>, rest: seq<Tuple>, all: seq<Tuple>)
    requires out + pending == all && pending == [x] + rest
    ensures (out + [x]) + rest == all
  {
    assert out + pending == (out + [x]) + rest;
  }

  /** Every row has `arity` values. */
  predicate HasArity(rows: seq<Tuple>, arity: nat) {
    forall i | 0 <= i < |rows| :: |rows[i]| == arity
  }

  // ---------------------------------------------------------------------
  // The child of an operator

  /** A child iterator seen through its contract: `open()` replays the finite
      sequence `rows` from the start and `next()` hands out the row at `pos`.
      Every row has the child's `n_columns()` = `arity` values. */
  datatype Stream = Stream(arity: nat, rows: seq<Tuple>, pos: nat) {
    predicate Valid() {
      pos <= |rows| && HasArity(rows, arity)
    }

    /** The rows the coming `next()` calls will hand out. */
    function Remaining(): seq<Tuple>
      requires pos <= |rows|
    {
      rows[pos..]
    }

    predicate Exhausted() {
      pos >= |rows|
    }

    /** Same rows and arity, whatever the position. */
    predicate SameSource(other: Stream) {
      arity == other.arity && rows == other.rows
    }
  }

  /** `open()` of a child: the whole sequence is pending again. */
  function StreamOpen(s: Stream): (s': Stream)
    requires s.Valid()
    ensures s'.Valid() && s'.SameSource(s)
    ensures s'.Remaining() == s.rows
  {
    s.(pos := 0)
  }

  /** `close()` of a child: nothing is pending. */
  function StreamClose(s: Stream): (s': Stream)
    requires s.Valid()
    ensures s'.Valid() && s'.SameSource(s) && s'.Exhausted()
  {
    s.(pos := |s.rows|)
  }

  /** `next()` of a child: the first pending row, or `NULL` once none is left. */
  function StreamNext(s: Stream): (r: (Option<Tuple>, Stream))
    requires s.Valid()
    ensures r.1.Valid() && r.1.SameSource(s)
    ensures s.Remaining() == Emit(r.0) + r.1.Remaining()
    ensures r.0.None? <==> s.Exhausted()
    ensures r.0.Some? ==> |r.0.value| == s.arity
    ensures s.Exhausted() ==> r.1 == s
  {
    if s.pos < |s.rows| then
      assert s.rows[s.pos..] == [s.rows[s.pos]] + s.rows[s.pos + 1..];
      (Some(s.rows[s.pos]), s.(pos := s.pos + 1))
    else
      (None, s)
  }

  // ---------------------------------------------------------------------
  // TableIterator

  /** A scan of a table whose row container iterates in the order `rows`;
      `input` and `end` are the two container iterators `open()` sets. */
  datatype TableIterator = TableIterator(columns: seq<string>, rows: seq<Tuple>, input: nat, end: nat) {
    predicate Valid() {
      input <= end <= |rows|
    }

    /** The rows the coming `next()` calls will hand out. */
    function Pending(): seq<Tuple>
      requires Valid()
    {
      rows[input..end]
    }
  }

  /** `n_columns()`: the table's column count. */
  function TableColumns(it: TableIterator): nat {
    |it.columns|
  }

  /** `open()`: the scan covers the whole container, in container order. */
  function TableOpen(it: TableIterator): (it': TableIterator)
    ensures it'.Valid() && it'.rows == it.rows && it'.columns == it.columns
    ensures it'.Pending() == it.rows
  {
    it.(end := |it.rows|, input := 0)
  }

  /** `next()`: the row under the cursor, advancing it, or `NULL` at the end. */
  function TableNext(it: TableIterator): (r: (Option<Tuple>, TableIterator))
    requires it.Valid()
    ensures r.1.Valid() && r.1.rows == it.rows && r.1.columns == it.columns
    ensures it.Pending() == Emit(r.0) + r.1.Pending()
    ensures r.0.None? <==> it.Pending() == []
    ensures it.Pending() == [] ==> r.1 == it
  {
    if it.input != it.end then
      assert it.rows[it.input..it.end] == [it.rows[it.input]] + it.rows[it.input + 1..it.end];
      (Some(it.rows[it.input]), it.(input := it.input + 1))
    else
      (None, it)
  }

  /** `close()`: the cursor jumps to the end, so `next()` answers `NULL`. */
  function TableClose(it: TableIterator): (it': TableIterator)
    requires it.Valid()
    ensures it'.Valid() && it'.rows == it.rows && it'.Pending() == []
  {
    it.(input := it.end)
  }

  /** The caller's loop: `next()` until `NULL`. After `open()` it yields the
      container's rows, each once and in order, and `next()` keeps answering `NULL`. */
  method TableScanAll(it: TableIterator) returns (out: seq<Tuple>, it': TableIterator)
    requires it.Valid()
    ensures out == it.Pending()
    ensures it'.Valid() && it'.rows == it.rows && it'.Pending() == []
  {
    out := [];
    it' := it;
    while true
      invariant it'.Valid() && it'.rows == it.rows && it'.columns == it.columns
      invariant out + it'.Pending() == it.Pending()
      decreases |it'.Pending()|
    {
      var row;
      ghost var before := it'.Pending();
      row, it' := TableNext(it').0, TableNext(it').1;
      if row.None? {
        return;
      }
      Consume(out, row.value, before, it'.Pending(), it.Pending());
      out := out + [row.value];
    }
  }

  // ---------------------------------------------------------------------
  // IndexScan

  /** An ordered index: (key row, indexed row) entries in key order under
      `less`, rows of `arity` columns. `Index` itself is not part of this
      model; only its ordering and bound queries are. */
  datatype Index = Index(arity: nat, entries: seq<(Tuple, Tuple)>, less: (Tuple, Tuple) -> bool)

  ghost predicate OrderedIndex(ix: Index) {
    StrictWeakOrder(ix.less) && SortedBy(ix.less, Keys(ix.entries))
  }

  function Keys(es: seq<(Tuple, Tuple)>): (ks: seq<Tuple>)
    ensures |ks| == |es|
    ensures forall i | 0 <= i < |es| :: ks[i] == es[i].0
  {
    seq(|es|, i requires 0 <= i < |es| => es[i].0)
  }

  /** The indexed rows of some entries, in entry order. */
  function Payloads(es: seq<(Tuple, Tuple)>): (ps: seq<Tuple>)
    ensures |ps| == |es|
    ensures forall i | 0 <= i < |es| :: ps[i] == es[i].1
  {
    seq(|es|, i requires 0 <= i < |es| => es[i].1)
  }

  /** `lower_bound(key)`: the first entry whose key is not below `key`. */
  function LowerBound(ix: Index, key: Tuple, from: nat := 0): (k: nat)
    requires from <= |ix.entries|
    requires forall i | 0 <= i < from :: ix.less(ix.entries[i].0, key)
    ensures from <= k <= |ix.entries|
    ensures forall i | 0 <= i < k :: ix.less(ix.entries[i].0, key)
    ensures k < |ix.entries| ==> !ix.less(ix.entries[k].0, key)
    decreases |ix.entries| - from
  {
    if from == |ix.entries| || !ix.less(ix.entries[from].0, key) then from
    else LowerBound(ix, key, from + 1)
  }

  /** `upper_bound(key)`: the first entry whose key is above `key`. */
  function UpperBound(ix: Index, key: Tuple, from: nat := 0): (k: nat)
    requires from <= |ix.entries|
    requires forall i | 0 <= i < from :: !ix.less(key, ix.entries[i].0)
    ensures from <= k <= |ix.entries|
    ensures forall i | 0 <= i < k :: !ix.less(key, ix.entries[i].0)
    ensures k < |ix.entries| ==> ix.less(key, ix.entries[k].0)
    decreases |ix.entries| - from
  {
    if from == |ix.entries| || ix.less(key, ix.entries[from].0) then from
    else UpperBound(ix, key, from + 1)
  }

  /** A range scan over `index` between the key rows `lo` and `hi`; `input`
      and `end` are the entry positions `open()` sets. */
  datatype IndexScan = IndexScan(index: Index, lo: Tuple, hi: Tuple, input: nat, end: nat) {
    predicate Valid() {
      input <= end <= |index.entries|
    }

    /** The rows the coming `next()` calls will hand out. */
    function Pending(): seq<Tuple>
      requires Valid()
    {
      Payloads(index.entries[input..end])
    }
  }

  /** The constructor: a missing high bound makes the scan an exact match on `lo`. */
  function NewIndexScan(index: Index, lo: Tuple, hi: Option<Tuple>): (sc: IndexScan)
    ensures sc.index == index && sc.lo == lo
    ensures hi.None? ==> sc.hi == lo
    ensures hi.Some? ==> sc.hi == hi.value
  {
    IndexScan(index, lo, if hi.None? then lo else hi.value, 0, 0)
  }

  /** `n_columns()`: the index's own column count, not the table's. */
  function IndexColumns(sc: IndexScan): nat {
    sc.index.arity
  }

  /** `open()`: positions the scan between `lower_bound(lo)` and `upper_bound(hi)`.
      The source walks from the first to the second until they meet, so it
      needs the first not to lie past the second. */
  function IndexOpen(sc: IndexScan): (sc': IndexScan)
    requires LowerBound(sc.index, sc.lo) <= UpperBound(sc.index, sc.hi)
    ensures sc'.Valid() && sc'.index == sc.index && sc'.lo == sc.lo && sc'.hi == sc.hi
    ensures sc'.Pending() ==
      Payloads(sc.index.entries[LowerBound(sc.index, sc.lo)..UpperBound(sc.index, sc.hi)])
  {
    sc.(input := LowerBound(sc.index, sc.lo), end := UpperBound(sc.index, sc.hi))
  }

  /** `next()`: the row of the entry under the cursor, advancing it, or `NULL` at the end. */
  function IndexNext(sc: IndexScan): (r: (Option<Tuple>, IndexScan))
    requires sc.Valid()
    ensures r.1.Valid() && r.1.index == sc.index && r.1.lo == sc.lo && r.1.hi == sc.hi
    ensures sc.Pending() == Emit(r.0) + r.1.Pending()
    ensures r.0.None? <==> sc.Pending() == []
    ensures sc.Pending() == [] ==> r.1 == sc
  {
    if sc.input != sc.end then
      var es := sc.index.entries;
      assert Payloads(es[sc.input..sc.end]) == [es[sc.input].1] + Payloads(es[sc.input + 1..sc.end]);
      (Some(es[sc.input].1), sc.(input := sc.input + 1))
    else
      (None, sc)
  }

  /** `close()`: the cursor jumps to the end. */
  function IndexClose(sc: IndexScan): (sc': IndexScan)
    requires sc.Valid()
    ensures sc'.Valid() && sc'.index == sc.index && sc'.Pending() == []
  {
    sc.(input := sc.end)
  }

  /** The caller's loop over an index scan: `next()` until `NULL`. */
  method IndexScanAll(sc: IndexScan) returns (out: seq<Tuple>, sc': IndexScan)
    requires sc.Valid()
    ensures out == sc.Pending()
    ensures sc'.Valid() && sc'.index == sc.index && sc'.Pending() == []
  {
    out := [];
    sc' := sc;
    while true
      invariant sc'.Valid() && sc'.index == sc.index && sc'.lo == sc.lo && sc'.hi == sc.hi
      invariant out + sc'.Pending() == sc.Pending()
      decreases |sc'.Pending()|
    {
      var row;
      ghost var before := sc'.Pending();
      row, sc' := IndexNext(sc').0, IndexNext(sc').1;
      if row.None? {
        return;
      }
      Consume(out, row.value, before, sc'.Pending(), sc.Pending());
      out := out + [row.value];
    }
  }

  /** A key between `lo` and `hi`, both included. */
  ghost predicate InRange(less: (Tuple, Tuple) -> bool, key: Tuple, lo: Tuple, hi: Tuple) {
    !less(key, lo) && !less(hi, key)
  }

  /** On an ordered index the scanned positions are exactly those whose key
      lies in [lo, hi]: every row produced is in range and every entry in
      range is produced. */
  lemma IndexRangeExact(ix: Index, lo: Tuple, hi: Tuple)
    requires OrderedIndex(ix)
    ensures forall i | 0 <= i < |ix.entries| ::
      (LowerBound(ix, lo) <= i < UpperBound(ix, hi) <==> InRange(ix.less, ix.entries[i].0, lo, hi))
  {
    var lb, ub := LowerBound(ix, lo), UpperBound(ix, hi);
    var es := ix.entries;
    forall i | 0 <= i < |es|
      ensures lb <= i < ub <==> InRange(ix.less, es[i].0, lo, hi)
    {
      if lb <= i && lb < |es| {
        assert !ix.less(Keys(es)[i], Keys(es)[lb]) || i == lb;
        assert !ix.less(es[i].0, lo);
      }
      if ub < i {
        assert !ix.less(Keys(es)[i], Keys(es)[ub]);
        assert ix.less(hi, es[i].0);
      }
    }
  }

  /** A range whose low bound is not above its high bound always satisfies
      `IndexOpen`'s requirement. */
  lemma BoundsOrdered(ix: Index, lo: Tuple, hi: Tuple)
    requires OrderedIndex(ix)
    requires !ix.less(hi, lo)
    ensures LowerBound(ix, lo) <= UpperBound(ix, hi)
  {
  }
}
