/** The `Unique` iterator (`QueryIterator/Operators.cpp`): drops every row
    equal, column by column, to the row just before it. It keeps a snapshot
    `_last_unique` of the last row read; an empty snapshot stands for "no
    row read yet". Because of that sentinel, rows with no columns are never
    dropped (`UniqueKeepsEmptyRows`). */
module UniqueIterator {
  import opened Results
  import opened Streams

  /** What the coming `next()` calls hand out when the snapshot is `last`
      and `xs` are the child rows still to come. */
  function UniqueFrom(last: Tuple, xs: seq<Tuple>): seq<Tuple>
    decreases |xs|
  {
    if xs == [] then []
    else if |last| == 0 || xs[0] != last then [xs[0]] + UniqueFrom(xs[0], xs[1..])
    else UniqueFrom(xs[0], xs[1..])
  }

  /** Adjacent duplicates removed: the first row is kept, and each later row
      is kept exactly when it differs from the row immediately before it. */
  function Dedupe(xs: seq<Tuple>): seq<Tuple>
    decreases |xs|
  {
    if xs == [] then []
    else
      var n := |xs| - 1;
      Dedupe(xs[..n]) + (if n == 0 || xs[n] != xs[n - 1] then [xs[n]] else [])
  }

  /** Every row has at least one column. */
  predicate NonEmptyRows(xs: seq<Tuple>) {
    forall i | 0 <= i < |xs| :: |xs[i]| > 0
  }

  /** One more row at the end of a non-empty sequence is kept exactly when
      it differs from the row before it. */
  lemma DedupeSnoc(p: seq<Tuple>, x: Tuple)
    requires p != []
    ensures Dedupe(p + [x]) == Dedupe(p) + (if x != p[|p| - 1] then [x] else [])
  {
    var q := p + [x];
    assert q[..|q| - 1] == p;
    assert q[|q| - 1] == x && q[|q| - 2] == p[|p| - 1];
  }

  /** One step of the iterator once a row has been read. */
  lemma UniqueFromStep(last: Tuple, rest: seq<Tuple>)
    requires |last| > 0 && rest != []
    ensures UniqueFrom(last, rest)
         == (if rest[0] != last then [rest[0]] else []) + UniqueFrom(rest[0], rest[1..])
  {
  }

  /** Reading on from the last row of `p` continues the deduplication of `p`. */
  lemma {:induction false} UniqueFromContinues(p: seq<Tuple>, rest: seq<Tuple>)
    requires p != [] && |p[|p| - 1]| > 0 && NonEmptyRows(rest)
    ensures Dedupe(p) + UniqueFrom(p[|p| - 1], rest) == Dedupe(p + rest)
    decreases |rest|
  {
    if rest == [] {
      assert p + rest == p;
    } else {
      var x, last := rest[0], p[|p| - 1];
      var kept := if x != last then [x] else [];
      var p' := p + [x];
      assert NonEmptyRows(rest[1..]) by {
        forall i | 0 <= i < |rest[1..]| ensures |rest[1..][i]| > 0 {
          assert rest[1..][i] == rest[i + 1];
        }
      }
      assert p'[|p'| - 1] == x;
      UniqueFromContinues(p', rest[1..]);
      calc {
        Dedupe(p) + UniqueFrom(last, rest);
        { UniqueFromStep(last, rest); }
        Dedupe(p) + (kept + UniqueFrom(x, rest[1..]));
        (Dedupe(p) + kept) + UniqueFrom(x, rest[1..]);
        { DedupeSnoc(p, x); }
        Dedupe(p') + UniqueFrom(x, rest[1..]);
        Dedupe(p' + rest[1..]);
        { assert p' + rest[1..] == p + rest; }
        Dedupe(p + rest);
      }
    }
  }

  /** On rows with at least one column, the iterator's output is exactly the
      adjacent-duplicate-free version of its input. */
  lemma UniqueIsDedupe(xs: seq<Tuple>)
    requires NonEmptyRows(xs)
    ensures UniqueFrom([], xs) == Dedupe(xs)
  {
    if xs != [] {
      assert Dedupe([xs[0]]) == [xs[0]];
      assert [xs[0]] + xs[1..] == xs;
      UniqueFromContinues([xs[0]], xs[1..]);
    }
  }

  /** Rows with no columns all pass: the snapshot of such a row is empty,
      so every one of them is taken for the first. */
  lemma {:induction false} UniqueKeepsEmptyRows(last: Tuple, xs: seq<Tuple>)
    requires |last| == 0
    requires forall i | 0 <= i < |xs| :: xs[i] == []
    ensures UniqueFrom(last, xs) == xs
    decreases |xs|
  {
    if xs != [] {
      UniqueKeepsEmptyRows(xs[0], xs[1..]);
    }
  }

  /** The last row of a non-empty input is always the last row of its
      deduplication: either it is kept, or it equals the row before it. */
  lemma {:induction false} DedupeLast(xs: seq<Tuple>)
    requires xs != []
    ensures Dedupe(xs) != [] && Dedupe(xs)[|Dedupe(xs)| - 1] == xs[|xs| - 1]
    decreases |xs|
  {
    var n := |xs| - 1;
    if n > 0 && xs[n] == xs[n - 1] {
      DedupeLast(xs[..n]);
    }
  }

  /** No two adjacent rows of the output are equal. */
  lemma {:induction false} DedupeNoAdjacent(xs: seq<Tuple>)
    ensures forall k | 0 < k < |Dedupe(xs)| :: Dedupe(xs)[k] != Dedupe(xs)[k - 1]
    decreases |xs|
  {
    if xs != [] {
      var n := |xs| - 1;
      var p := xs[..n];
      DedupeNoAdjacent(p);
      if n > 0 && xs[n] != xs[n - 1] {
        DedupeLast(p);
        assert p[|p| - 1] == xs[n - 1];
      }
    }
  }

  /** Every row that differs from the row before it (and the first row) is
      kept; in particular equal rows that are not adjacent are all kept. */
  lemma {:induction false} DedupeKeepsChanges(xs: seq<Tuple>, i: nat)
    requires i < |xs| && (i == 0 || xs[i] != xs[i - 1])
    ensures xs[i] in Dedupe(xs)
    decreases |xs|
  {
    var n := |xs| - 1;
    if i < n {
      var p := xs[..n];
      assert p[i] == xs[i] && (i == 0 || p[i - 1] == xs[i - 1]);
      DedupeKeepsChanges(p, i);
    }
  }

  /** Duplicates that are not adjacent are all kept. */
  lemma NonAdjacentKept(a: Tuple, b: Tuple)
    requires a != b
    ensures Dedupe([a, b, a]) == [a, b, a]
  {
    DedupeSnoc([a], b);
    DedupeSnoc([a, b], a);
    assert [a] == [] + [a] && [a] + [b] == [a, b] && [a, b] + [a] == [a, b, a];
  }

  /** The iterator's state: the child and the snapshot `_last_unique`. */
  datatype Unique = Unique(input: Stream, last: Tuple) {
    predicate Valid() {
      input.Valid() && (|last| == 0 || |last| == input.arity)
    }

    /** The rows the coming `next()` calls will hand out, up to `NULL`. */
    function Pending(): seq<Tuple>
      requires Valid()
    {
      UniqueFrom(last, input.Remaining())
    }
  }

  /** `n_columns()`: the child's. */
  function UniqueColumns(st: Unique): nat {
    st.input.arity
  }

  /** `open()`: an empty snapshot and the child from its start. */
  function UniqueOpen(st: Unique): (st': Unique)
    requires st.input.Valid()
    ensures st'.Valid() && st'.input.SameSource(st.input)
    ensures st'.Pending() == UniqueFrom([], st.input.rows)
  {
    Unique(StreamOpen(st.input), [])
  }

  /** `close()`: closes the child. The snapshot is freed in the source, but
      `next()` answers `NULL` before it would look at it. */
  function UniqueClose(st: Unique): (st': Unique)
    requires st.Valid()
    ensures st'.Valid() && st'.input.SameSource(st.input) && st'.Pending() == []
  {
    st.(input := StreamClose(st.input))
  }

  /** The column-by-column comparison in `next()`: some column of `row`
      differs from the snapshot. */
  method RowsDiffer(row: Tuple, last: Tuple, n: nat) returns (differs: bool)
    requires |row| == n && |last| == n
    ensures differs <==> row != last
  {
    var i := 0;
    while i < n
      invariant 0 <= i <= n
      invariant row[..i] == last[..i]
    {
      if row[i] != last[i] {
        return true;
      }
      i := i + 1;
    }
    assert row == row[..n] && last == last[..n];
    return false;
  }

  /** `next()`: the next child row that differs from the one before it, or
      `NULL` once the child is exhausted. */
  method UniqueNext(st: Unique) returns (row: Option<Tuple>, st': Unique)
    requires st.Valid()
    ensures st'.Valid() && st'.input.SameSource(st.input)
    ensures st.Pending() == Emit(row) + st'.Pending()
    ensures row.Some? ==> |row.value| == UniqueColumns(st)
    ensures row.None? ==> st.Pending() == [] && st'.input.Exhausted()
  {
    var input := st.input;
    var last := st.last;
    var next: Option<Tuple>;
    next, input := StreamNext(input).0, StreamNext(input).1;
    while true
      invariant input.Valid() && input.SameSource(st.input)
      invariant |last| == 0 || |last| == st.input.arity
      invariant next.Some? ==> |next.value| == st.input.arity
      invariant next.None? ==> input.Exhausted()
      invariant st.Pending() == UniqueFrom(last, Emit(next) + input.Remaining())
      decreases |input.Remaining()| + |Emit(next)|
    {
      if next.None? {
        return None, Unique(input, last);
      }
      var x := next.value;
      assert ([x] + input.Remaining())[1..] == input.Remaining();
      if |last| == 0 {
        return Some(x), Unique(input, x);
      }
      var differs := RowsDiffer(x, last, st.input.arity);
      if differs {
        return Some(x), Unique(input, x);
      }
      last := x;
      next, input := StreamNext(input).0, StreamNext(input).1;
    }
  }

  /** The caller's loop: `next()` until `NULL`. */
  method UniqueAll(st: Unique) returns (out: seq<Tuple>, st': Unique)
    requires st.Valid()
    ensures out == st.Pending()
    ensures st'.Valid() && st'.input.SameSource(st.input) && st'.Pending() == []
  {
    out := [];
    st' := st;
    while true
      invariant st'.Valid() && st'.input.SameSource(st.input)
      invariant out + st'.Pending() == st.Pending()
      decreases |st'.Pending()|
    {
      var row;
      ghost var before := st'.Pending();
      row, st' := UniqueNext(st');
      if row.None? {
        return;
      }
      Consume(out, row.value, before, st'.Pending(), st.Pending());
      out := out + [row.value];
    }
  }

  /** `open()` then `next()` until `NULL`: on a child whose rows have columns,
      its rows with adjacent duplicates removed. */
  method UniqueRun(st: Unique) returns (out: seq<Tuple>)
    requires st.input.Valid()
    ensures out == UniqueFrom([], st.input.rows)
    ensures st.input.arity > 0 ==> out == Dedupe(st.input.rows)
  {
    var done;
    out, done := UniqueAll(UniqueOpen(st));
    if st.input.arity > 0 {
      UniqueIsDedupe(st.input.rows);
    }
  }
}
