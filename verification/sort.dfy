/** The `Sort` iterator (`QueryIterator/Operators.cpp`): `open()` drains the
    child into a buffer and sorts it; `next()` then walks the buffer. The
    comparator `RowCompare(sort_columns)` is taken as an abstract strict weak
    order `less`. `std::sort` is not stable, so only the sorted-permutation
    property is promised; the insertion sort below is one admissible result. */
module SortIterator {
  import opened Results
  import opened Orders
  import opened Streams

  /** `xs` with `x` placed before the first element that is not below it. */
  function Insert(less: (Tuple, Tuple) -> bool, x: Tuple, xs: seq<Tuple>): (ys: seq<Tuple>)
    requires StrictWeakOrder(less) && SortedBy(less, xs)
    ensures multiset(ys) == multiset(xs) + multiset{x}
    ensures SortedBy(less, ys)
  {
    if xs == [] || !less(xs[0], x) then
      NoneBelow(less, x, xs);
      ConsSorted(less, x, xs);
      [x] + xs
    else
      assert xs == [xs[0]] + xs[1..];
      var rest := Insert(less, x, xs[1..]);
      AllAbove(less, xs[0], xs[1..], x, rest);
      ConsSorted(less, xs[0], rest);
      [xs[0]] + rest
  }

  /** In a sorted sequence whose head is not below `x`, nothing is below `x`. */
  lemma NoneBelow(less: (Tuple, Tuple) -> bool, x: Tuple, xs: seq<Tuple>)
    requires StrictWeakOrder(less) && SortedBy(less, xs)
    requires xs == [] || !less(xs[0], x)
    ensures forall j | 0 <= j < |xs| :: !less(xs[j], x)
  {
    forall j | 0 <= j < |xs| ensures !less(xs[j], x) {
      assert !less(xs[j], xs[0]) || j == 0;
    }
  }

  /** A head that no element of a sorted tail lies below keeps it sorted. */
  lemma ConsSorted(less: (Tuple, Tuple) -> bool, h: Tuple, t: seq<Tuple>)
    requires SortedBy(less, t)
    requires forall j | 0 <= j < |t| :: !less(t[j], h)
    ensures SortedBy(less, [h] + t)
  {
    var ys := [h] + t;
    forall i, j | 0 <= i < j < |ys| ensures !less(ys[j], ys[i]) {
      assert ys[j] == t[j - 1];
      if i > 0 {
        assert ys[i] == t[i - 1];
      }
    }
  }

  /** If neither `x` nor any element of `t` lies below `h`, no element of a
      permutation of `t` plus `x` does. */
  lemma AllAbove(less: (Tuple, Tuple) -> bool, h: Tuple, t: seq<Tuple>, x: Tuple, rest: seq<Tuple>)
    requires StrictWeakOrder(less) && less(h, x)
    requires forall j | 0 <= j < |t| :: !less(t[j], h)
    requires multiset(rest) == multiset(t) + multiset{x}
    ensures forall j | 0 <= j < |rest| :: !less(rest[j], h)
  {
    forall j | 0 <= j < |rest| ensures !less(rest[j], h) {
      assert rest[j] in multiset(rest);
      if rest[j] != x {
        assert rest[j] in multiset(t);
        var k :| 0 <= k < |t| && t[k] == rest[j];
      }
    }
  }

  /** The rows of `xs` in `less` order. */
  function SortBy(less: (Tuple, Tuple) -> bool, xs: seq<Tuple>): (ys: seq<Tuple>)
    requires StrictWeakOrder(less)
    ensures multiset(ys) == multiset(xs)
    ensures SortedBy(less, ys)
  {
    if xs == [] then []
    else
      assert xs == [xs[0]] + xs[1..];
      Insert(less, xs[0], SortBy(less, xs[1..]))
  }

  /** Rows with the same values, possibly reordered, keep their arity. */
  lemma PermutationArity(xs: seq<Tuple>, ys: seq<Tuple>, arity: nat)
    requires multiset(xs) == multiset(ys) && HasArity(xs, arity)
    ensures HasArity(ys, arity)
  {
    forall i | 0 <= i < |ys| ensures |ys[i]| == arity {
      assert ys[i] in multiset(xs);
      var k :| 0 <= k < |xs| && xs[k] == ys[i];
    }
  }

  /** The iterator's state: the child, the comparator, the buffer `_sorted`
      and the buffer position `_sorted_iterator`. */
  datatype Sort = Sort(input: Stream, less: (Tuple, Tuple) -> bool, sorted: seq<Tuple>, cursor: nat) {
    predicate Valid() {
      input.Valid() && cursor <= |sorted| && HasArity(sorted, input.arity)
    }

    /** The rows the coming `next()` calls will hand out, up to `NULL`. */
    function Pending(): seq<Tuple>
      requires Valid()
    {
      sorted[cursor..]
    }

    ghost predicate SameSetup(other: Sort) {
      less == other.less && input.SameSource(other.input)
    }
  }

  /** The constructor: an empty buffer. */
  function NewSort(input: Stream, less: (Tuple, Tuple) -> bool): (st: Sort)
    requires input.Valid()
    ensures st.Valid() && st.Pending() == [] && st.input == input && st.less == less
  {
    Sort(input, less, [], 0)
  }

  /** `n_columns()`: the child's. */
  function SortColumns(st: Sort): nat {
    st.input.arity
  }

  /** `open()`: pulls every child row onto the end of the buffer, sorts the
      buffer and rewinds to its start. The child is left exhausted, and what
      is pending is the buffer's earlier rows and the child's rows, in order. */
  method SortOpen(st: Sort) returns (st': Sort)
    requires st.Valid() && StrictWeakOrder(st.less)
    ensures st'.Valid() && st'.SameSetup(st)
    ensures st'.input.Exhausted()
    ensures multiset(st'.Pending()) == multiset(st.sorted + st.input.rows)
    ensures SortedBy(st.less, st'.Pending())
  {
    var input := StreamOpen(st.input);
    var buffer := st.sorted;
    var row: Option<Tuple>;
    row, input := StreamNext(input).0, StreamNext(input).1;
    while row.Some?
      invariant input.Valid() && input.SameSource(st.input)
      invariant buffer + Emit(row) + input.Remaining() == st.sorted + st.input.rows
      invariant HasArity(buffer, st.input.arity)
      invariant row.Some? ==> |row.value| == st.input.arity
      invariant row.None? ==> input.Exhausted()
      decreases |input.Remaining()| + |Emit(row)|
    {
      buffer := buffer + [row.value];
      row, input := StreamNext(input).0, StreamNext(input).1;
    }
    var sorted := SortBy(st.less, buffer);
    PermutationArity(buffer, sorted, st.input.arity);
    st' := Sort(input, st.less, sorted, 0);
  }

  /** `next()`: the buffer row under the cursor, advancing it, or `NULL` at the end. */
  function SortNext(st: Sort): (r: (Option<Tuple>, Sort))
    requires st.Valid()
    ensures r.1.Valid() && r.1.SameSetup(st) && r.1.sorted == st.sorted
    ensures st.Pending() == Emit(r.0) + r.1.Pending()
    ensures r.0.None? <==> st.Pending() == []
    ensures r.0.Some? ==> |r.0.value| == SortColumns(st)
  {
    if st.cursor < |st.sorted| then
      assert st.sorted[st.cursor..] == [st.sorted[st.cursor]] + st.sorted[st.cursor + 1..];
      (Some(st.sorted[st.cursor]), st.(cursor := st.cursor + 1))
    else
      (None, st)
  }

  /** `close()`: closes the child and empties the buffer. The source leaves
      its buffer position dangling; here `next()` then answers `NULL`. */
  function SortClose(st: Sort): (st': Sort)
    requires st.Valid()
    ensures st'.Valid() && st'.SameSetup(st) && st'.sorted == [] && st'.Pending() == []
  {
    Sort(StreamClose(st.input), st.less, [], 0)
  }

  /** The caller's loop: `next()` until `NULL`. */
  method SortAll(st: Sort) returns (out: seq<Tuple>, st': Sort)
    requires st.Valid()
    ensures out == st.Pending()
    ensures st'.Valid() && st'.SameSetup(st) && st'.Pending() == []
  {
    out := [];
    st' := st;
    while true
      invariant st'.Valid() && st'.SameSetup(st) && st'.sorted == st.sorted
      invariant out + st'.Pending() == st.Pending()
      decreases |st'.sorted| - st'.cursor
    {
      var row;
      ghost var before := st'.Pending();
      row, st' := SortNext(st').0, SortNext(st').1;
      if row.None? {
        return;
      }
      Consume(out, row.value, before, st'.Pending(), st.Pending());
      out := out + [row.value];
    }
  }

  /** `open()` on a freshly built or closed `Sort`, then `next()` until
      `NULL`: every child row exactly as often as the child produced it,
      in `less` order. */
  method SortRun(st: Sort) returns (out: seq<Tuple>)
    requires st.Valid() && st.sorted == [] && StrictWeakOrder(st.less)
    ensures multiset(out) == multiset(st.input.rows)
    ensures SortedBy(st.less, out)
  {
    var ready := SortOpen(st);
    var done;
    out, done := SortAll(ready);
    assert st.sorted + st.input.rows == st.input.rows;
  }
}
