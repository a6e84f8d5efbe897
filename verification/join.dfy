/** The `NestedLoopsJoin` iterator (`QueryIterator/Operators.cpp`): an
    equi-join that, for each left row in turn, scans the right child from
    the start and hands out the left row extended with the right row's
    unselected values whenever the two agree on every join-column pair. The
    shared `joinResult` buffer is modelled as a fresh value per call. */
module JoinIterator {
  import opened Results
  import opened Seqs
  import opened Streams
  import opened Selectors

  // ---------------------------------------------------------------------
  // The join, as a specification

  /** Selectors the source accepts: both name existing columns and pick
      the same number of them (the constructor's `assert`). */
  predicate Compatible(ls: Selector, rs: Selector) {
    ls.Valid() && rs.Valid() && |ls.selected| == |rs.selected|
  }

  /** The left row `l` and the right row `r` agree on every join-column
      pair (a pair whose positions lie outside the rows, where the source's
      `at` would throw, does not agree). */
  predicate Matches(ls: Selector, rs: Selector, l: Tuple, r: Tuple) {
    forall i | 0 <= i < |ls.selected| ::
      i < |rs.selected| && ls.selected[i] < |l| && rs.selected[i] < |r| &&
      l[ls.selected[i]] == r[rs.selected[i]]
  }

  /** The output row for a matching pair: the left row, then the right row's
      values at the positions the right selector leaves out (positions past
      the end of `r` cannot occur once the selector fits the right child). */
  function Combined(rs: Selector, l: Tuple, r: Tuple): Tuple {
    l + seq(|rs.unselected|, i requires 0 <= i < |rs.unselected| =>
      if rs.unselected[i] < |r| then r[rs.unselected[i]] else "")
  }

  /** What the pair `l`, `r` adds to the output: its combined row if the two match. */
  function Contribution(ls: Selector, rs: Selector, l: Tuple, r: Tuple): seq<Tuple> {
    if Matches(ls, rs, l, r) then [Combined(rs, l, r)] else []
  }

  /** The output rows for the left row `l` against `rights`, in right order. */
  function JoinWith(ls: Selector, rs: Selector, l: Tuple, rights: seq<Tuple>): seq<Tuple> {
    if rights == [] then []
    else Contribution(ls, rs, l, rights[0]) + JoinWith(ls, rs, l, rights[1..])
  }

  /** The join of `lefts` with `rights`: left-major, right-minor. */
  function JoinSpec(ls: Selector, rs: Selector, lefts: seq<Tuple>, rights: seq<Tuple>): seq<Tuple> {
    if lefts == [] then []
    else JoinWith(ls, rs, lefts[0], rights) + JoinSpec(ls, rs, lefts[1..], rights)
  }

  /** The join in the order the iterator walks it: `l` against the right
      rows `rest` still to come, then each of `lefts` in turn against the
      whole right side `rights`. */
  function JoinFrom(ls: Selector, rs: Selector, l: Tuple, rest: seq<Tuple>, lefts: seq<Tuple>, rights: seq<Tuple>): seq<Tuple>
    decreases |lefts|, |rest|
  {
    if rest != [] then Contribution(ls, rs, l, rest[0]) + JoinFrom(ls, rs, l, rest[1..], lefts, rights)
    else if lefts == [] then []
    else JoinFrom(ls, rs, lefts[0], rights, lefts[1..], rights)
  }

  /** The iterator's walk produces the left-major join. */
  lemma {:induction false} JoinFromSpec(ls: Selector, rs: Selector, l: Tuple, rest: seq<Tuple>, lefts: seq<Tuple>, rights: seq<Tuple>)
    ensures JoinFrom(ls, rs, l, rest, lefts, rights) == JoinWith(ls, rs, l, rest) + JoinSpec(ls, rs, lefts, rights)
    decreases |lefts|, |rest|
  {
    if rest != [] {
      JoinFromSpec(ls, rs, l, rest[1..], lefts, rights);
    } else if lefts != [] {
      JoinFromSpec(ls, rs, lefts[0], rights, lefts[1..], rights);
    }
  }

  /** Against an empty right side the walk produces nothing. */
  lemma {:induction false} JoinFromNoRight(ls: Selector, rs: Selector, l: Tuple, lefts: seq<Tuple>)
    ensures JoinFrom(ls, rs, l, [], lefts, []) == []
    decreases |lefts|
  {
    if lefts != [] {
      JoinFromNoRight(ls, rs, lefts[0], lefts[1..]);
    }
  }

  /** A left row joins with no row of an empty right side. */
  lemma {:induction false} JoinSpecNoRight(ls: Selector, rs: Selector, lefts: seq<Tuple>)
    ensures JoinSpec(ls, rs, lefts, []) == []
    decreases |lefts|
  {
    if lefts != [] {
      JoinSpecNoRight(ls, rs, lefts[1..]);
    }
  }

  /** The rows joined with `l` are exactly the combinations with matching right rows. */
  lemma {:induction false} JoinWithMembers(ls: Selector, rs: Selector, l: Tuple, rights: seq<Tuple>)
    ensures forall x :: x in JoinWith(ls, rs, l, rights) <==>
      exists j | 0 <= j < |rights| :: Matches(ls, rs, l, rights[j]) && x == Combined(rs, l, rights[j])
    decreases |rights|
  {
    if rights != [] {
      var t := rights[1..];
      JoinWithMembers(ls, rs, l, t);
      forall x
        ensures x in JoinWith(ls, rs, l, rights) <==>
          exists j | 0 <= j < |rights| :: Matches(ls, rs, l, rights[j]) && x == Combined(rs, l, rights[j])
      {
        if exists j | 0 <= j < |rights| :: Matches(ls, rs, l, rights[j]) && x == Combined(rs, l, rights[j]) {
          var j :| 0 <= j < |rights| && Matches(ls, rs, l, rights[j]) && x == Combined(rs, l, rights[j]);
          if j > 0 {
            assert rights[j] == t[j - 1];
          }
        }
        if x in JoinWith(ls, rs, l, t) {
          var j :| 0 <= j < |t| && Matches(ls, rs, l, t[j]) && x == Combined(rs, l, t[j]);
          assert t[j] == rights[j + 1];
        }
      }
    }
  }

  /** The join holds exactly the combinations of a left and a right row that
      agree on every join-column pair. */
  lemma {:induction false} JoinSpecMembers(ls: Selector, rs: Selector, lefts: seq<Tuple>, rights: seq<Tuple>)
    ensures forall x :: x in JoinSpec(ls, rs, lefts, rights) <==>
      exists i, j | 0 <= i < |lefts| && 0 <= j < |rights| ::
        Matches(ls, rs, lefts[i], rights[j]) && x == Combined(rs, lefts[i], rights[j])
    decreases |lefts|
  {
    if lefts != [] {
      var t := lefts[1..];
      JoinSpecMembers(ls, rs, t, rights);
      JoinWithMembers(ls, rs, lefts[0], rights);
      forall x
        ensures x in JoinSpec(ls, rs, lefts, rights) <==>
          exists i, j | 0 <= i < |lefts| && 0 <= j < |rights| ::
            Matches(ls, rs, lefts[i], rights[j]) && x == Combined(rs, lefts[i], rights[j])
      {
        if exists i, j | 0 <= i < |lefts| && 0 <= j < |rights| ::
            Matches(ls, rs, lefts[i], rights[j]) && x == Combined(rs, lefts[i], rights[j]) {
          var i, j :| 0 <= i < |lefts| && 0 <= j < |rights| &&
            Matches(ls, rs, lefts[i], rights[j]) && x == Combined(rs, lefts[i], rights[j]);
          if i > 0 {
            assert lefts[i] == t[i - 1];
          }
        }
        if x in JoinSpec(ls, rs, t, rights) {
          var i, j :| 0 <= i < |t| && 0 <= j < |rights| &&
            Matches(ls, rs, t[i], rights[j]) && x == Combined(rs, t[i], rights[j]);
          assert t[i] == lefts[i + 1];
        }
      }
    }
  }

  // ---------------------------------------------------------------------
  // The iterator

  /** The iterator's state: both children, both join-column selectors and
      the current left row (`_left_row`, `NULL` once the left side is done). */
  datatype NestedLoopsJoin = NestedLoopsJoin(
    left: Stream, leftJoin: Selector, right: Stream, rightJoin: Selector, leftRow: Option<Tuple>)
  {
    predicate Valid() {
      left.Valid() && right.Valid() && Compatible(leftJoin, rightJoin)
      && leftJoin.arity == left.arity && rightJoin.arity == right.arity
      && (leftRow.None? ==> left.Exhausted())
      && (leftRow.Some? ==> |leftRow.value| == left.arity)
    }

    /** The rows the coming `next()` calls will hand out, up to `NULL`: the
        current left row against the rest of the right side, then every
        later left row against the whole right side. */
    function Pending(): seq<Tuple>
      requires Valid()
    {
      match leftRow
      case None => []
      case Some(l) => JoinFrom(leftJoin, rightJoin, l, right.Remaining(), left.Remaining(), right.rows)
    }

    /** This state has read no less input than `earlier`: further on the
        left, or as far on the left and no less far on the right. */
    predicate NotBehind(earlier: NestedLoopsJoin) {
      left.pos > earlier.left.pos || (left.pos == earlier.left.pos && right.pos >= earlier.right.pos)
    }

    /** This state has read strictly more input than `earlier`. */
    predicate Ahead(earlier: NestedLoopsJoin) {
      left.pos > earlier.left.pos || (left.pos == earlier.left.pos && right.pos > earlier.right.pos)
    }

    predicate SameSetup(other: NestedLoopsJoin) {
      left.SameSource(other.left) && right.SameSource(other.right)
      && leftJoin == other.leftJoin && rightJoin == other.rightJoin
    }
  }

  /** The constructor: its `assert` demands as many right join columns as left ones. */
  function NewJoin(left: Stream, leftColumns: seq<nat>, right: Stream, rightColumns: seq<nat>): (st: NestedLoopsJoin)
    requires left.Valid() && right.Valid()
    requires forall i | 0 <= i < |leftColumns| :: leftColumns[i] < left.arity
    requires forall i | 0 <= i < |rightColumns| :: rightColumns[i] < right.arity
    requires |leftColumns| == |rightColumns|
    ensures Compatible(st.leftJoin, st.rightJoin)
    ensures st.leftJoin.arity == left.arity && st.rightJoin.arity == right.arity
    ensures st.Valid() ==> left.Exhausted()
    ensures st.leftJoin.selected == leftColumns && st.rightJoin.selected == rightColumns
    ensures st.left == left && st.right == right && st.leftRow.None?
  {
    NestedLoopsJoin(left, NewSelector(left.arity, leftColumns), right, NewSelector(right.arity, rightColumns), None)
  }

  /** `n_columns()`: left arity plus right arity less the join columns. */
  function JoinColumns(st: NestedLoopsJoin): int {
    st.left.arity + st.right.arity - |st.leftJoin.selected|
  }

  /** `open()`: opens both children and fetches the first left row; the whole
      join of the two children is then pending. */
  function JoinOpen(st: NestedLoopsJoin): (st': NestedLoopsJoin)
    requires st.left.Valid() && st.right.Valid() && Compatible(st.leftJoin, st.rightJoin)
    requires st.leftJoin.arity == st.left.arity && st.rightJoin.arity == st.right.arity
    ensures st'.Valid() && st'.SameSetup(st)
    ensures st'.Pending() == JoinSpec(st.leftJoin, st.rightJoin, st.left.rows, st.right.rows)
  {
    var first := StreamNext(StreamOpen(st.left));
    if first.0.Some? then
      JoinFromSpec(st.leftJoin, st.rightJoin, first.0.value, st.right.rows, first.1.Remaining(), st.right.rows);
      st.(left := first.1, right := StreamOpen(st.right), leftRow := first.0)
    else
      st.(left := first.1, right := StreamOpen(st.right), leftRow := first.0)
  }

  /** `close()`: closes both children; `next()` then answers `NULL`. */
  function JoinClose(st: NestedLoopsJoin): (st': NestedLoopsJoin)
    requires st.Valid()
    ensures st'.Valid() && st'.SameSetup(st) && st'.Pending() == []
  {
    st.(left := StreamClose(st.left), right := StreamClose(st.right))
  }

  /** The right child's `next()` at the top of the `next()` loop, when the
      right side has a row left: it pairs with the current left row, and the
      rest of the pending output follows. */
  function NextRight(st: NestedLoopsJoin): (r: (Tuple, NestedLoopsJoin))
    requires st.Valid() && !st.right.Exhausted()
    ensures r.1.Valid() && r.1.SameSetup(st) && r.1.leftRow == st.leftRow && r.1.left == st.left
    ensures |r.0| == st.right.arity
    ensures r.1.right.pos > st.right.pos
    ensures st.leftRow.Some? ==> st.Pending() == Contribution(st.leftJoin, st.rightJoin, st.leftRow.value, r.0) + r.1.Pending()
  {
    var nr := StreamNext(st.right);
    assert st.right.Remaining() == [nr.0.value] + nr.1.Remaining();
    assert nr.1.Remaining() == st.right.Remaining()[1..];
    (nr.0.value, st.(right := nr.1))
  }

  /** The advance of the left row in `next()`, with the restart of the right
      child: once the right side has run out, the next left row becomes
      current and the right side starts over. Nothing pending is lost; if no
      left row is left, nothing is pending at all. */
  function NextLeft(st: NestedLoopsJoin): (st': NestedLoopsJoin)
    requires st.Valid() && st.right.Exhausted()
    ensures st'.Valid() && st'.SameSetup(st)
    ensures st.Pending() == st'.Pending()
    ensures st'.leftRow.None? ==> st.Pending() == []
    ensures st'.left.pos >= st.left.pos
    ensures st'.leftRow.Some? ==> st'.right.pos == 0 && st'.left.pos > st.left.pos
  {
    var nl := StreamNext(st.left);
    if nl.0.None? then
      st.(left := nl.1, leftRow := None)
    else
      assert st.left.Remaining() == [nl.0.value] + nl.1.Remaining();
      assert nl.1.Remaining() == st.left.Remaining()[1..];
      st.(left := nl.1, right := StreamOpen(StreamClose(st.right)), leftRow := nl.0)
  }

  /** The fetching part of one turn of the `next()` loop: fetch the next
      right row; when the right side has run out, move to the next left row
      and restart the right side. If a right row comes back and a left row is current, the
      pending output is that pair's contribution followed by what the new
      state has pending; otherwise nothing is pending at all. Each turn that
      goes on consumes a right row or a left row. */
  function Fetch(st: NestedLoopsJoin): (r: (Option<Tuple>, NestedLoopsJoin))
    requires st.Valid()
    ensures r.1.Valid() && r.1.SameSetup(st)
    ensures r.0.Some? ==> |r.0.value| == st.right.arity
    ensures r.0.Some? && r.1.leftRow.Some? ==>
      st.Pending() == Contribution(st.leftJoin, st.rightJoin, r.1.leftRow.value, r.0.value) + r.1.Pending()
    ensures r.0.None? || r.1.leftRow.None? ==> st.Pending() == [] && r.1.Pending() == []
    ensures r.1.NotBehind(st)
    ensures r.0.Some? ==> r.1.Ahead(st)
  {
    if !st.right.Exhausted() then
      var (row, st') := NextRight(st);
      (Some(row), st')
    else
      var st' := NextLeft(st);
      if st'.leftRow.None? then
        (None, st')
      else if st'.right.Exhausted() then
        JoinFromNoRight(st.leftJoin, st.rightJoin, st'.leftRow.value, st'.left.Remaining());
        (None, st')
      else
        var (row, st'') := NextRight(st');
        (Some(row), st'')
  }

  /** The join-column comparison loop in `next()`: the left and right rows
      agree on every join-column pair. */
  method SameOnJoinColumns(ls: Selector, rs: Selector, l: Tuple, r: Tuple) returns (isEqual: bool)
    requires Compatible(ls, rs) && |l| == ls.arity && |r| == rs.arity
    ensures isEqual <==> Matches(ls, rs, l, r)
  {
    isEqual := true;
    var i := 0;
    while i < |ls.selected|
      invariant 0 <= i <= |ls.selected|
      invariant isEqual <==> forall k | 0 <= k < i :: l[ls.selected[k]] == r[rs.selected[k]]
    {
      if l[ls.selected[i]] != r[rs.selected[i]] {
        isEqual := false;
      }
      i := i + 1;
    }
  }

  /** The building of `joinResult` in `next()`: a copy of the left row
      followed by the right row's values at the unselected positions, in order. */
  method CombineRows(rs: Selector, l: Tuple, r: Tuple) returns (joined: Tuple)
    requires rs.Valid() && |r| == rs.arity
    ensures |joined| == |l| + |rs.unselected|
    ensures joined[..|l|] == l
    ensures forall i | 0 <= i < |rs.unselected| :: joined[|l| + i] == r[rs.unselected[i]]
    ensures joined == Combined(rs, l, r)
  {
    var unselected := rs.unselected;
    joined := l;
    var i := 0;
    while i < |unselected|
      invariant 0 <= i <= |unselected|
      invariant |joined| == |l| + i && joined[..|l|] == l
      invariant forall k | 0 <= k < i :: joined[|l| + k] == r[unselected[k]]
    {
      joined := joined + [r[unselected[i]]];
      i := i + 1;
    }
    assert joined == l + joined[|l|..];
  }

  /** `next()`: loops until a pair matches or the join is done. What it
      hands out is exactly the next row of the pending join; `NULL` comes
      only once nothing is pending, and then again on every later call. */
  method JoinNext(st: NestedLoopsJoin) returns (row: Option<Tuple>, st': NestedLoopsJoin)
    requires st.Valid()
    ensures st'.Valid() && st'.SameSetup(st)
    ensures st.Pending() == Emit(row) + st'.Pending()
    ensures row.None? ==> st.Pending() == [] && st'.Pending() == []
    ensures row.Some? ==> |row.value| == st.left.arity + |st.rightJoin.unselected|
    ensures st'.NotBehind(st)
    ensures row.Some? ==> st'.Ahead(st)
  {
    st' := st;
    while true
      invariant st'.Valid() && st'.SameSetup(st)
      invariant st'.Pending() == st.Pending()
      invariant st'.NotBehind(st)
      decreases |st.left.rows| - st'.left.pos, |st.right.rows| - st'.right.pos
    {
      var fetched := Fetch(st');
      var rightRow := fetched.0;
      var next := fetched.1;
      if rightRow.None? || next.leftRow.None? {
        return None, next;
      }
      var l, r := next.leftRow.value, rightRow.value;
      var isEqual := SameOnJoinColumns(st.leftJoin, st.rightJoin, l, r);
      if isEqual {
        var joined := CombineRows(st.rightJoin, l, r);
        assert Contribution(st.leftJoin, st.rightJoin, l, r) == [joined];
        return Some(joined), next;
      }
      assert Contribution(st.leftJoin, st.rightJoin, l, r) == [];
      st' := next;
    }
  }

  /** Every joined row has `n_columns()` values when the right join columns are distinct. */
  lemma JoinRowWidth(st: NestedLoopsJoin)
    requires st.Valid() && st.rightJoin.Partitions() && Distinct(st.rightJoin.selected)
    ensures st.left.arity + |st.rightJoin.unselected| == JoinColumns(st)
  {
    UnselectedCount(st.rightJoin);
  }

  /** The caller's loop: `next()` until `NULL`. */
  method JoinAll(st: NestedLoopsJoin) returns (out: seq<Tuple>, st': NestedLoopsJoin)
    requires st.Valid()
    ensures out == st.Pending()
    ensures st'.Valid() && st'.SameSetup(st) && st'.Pending() == []
  {
    out := [];
    st' := st;
    while true
      invariant st'.Valid() && st'.SameSetup(st)
      invariant out + st'.Pending() == st.Pending()
      decreases |st.left.rows| - st'.left.pos, |st.right.rows| - st'.right.pos
    {
      var row;
      ghost var before := st'.Pending();
      row, st' := JoinNext(st');
      if row.None? {
        return;
      }
      Consume(out, row.value, before, st'.Pending(), st.Pending());
      out := out + [row.value];
    }
  }

  /** `open()` then `next()` until `NULL`: the left-major join of the two
      children, which is empty when either child is. */
  method JoinRun(st: NestedLoopsJoin) returns (out: seq<Tuple>)
    requires st.left.Valid() && st.right.Valid() && Compatible(st.leftJoin, st.rightJoin)
    requires st.leftJoin.arity == st.left.arity && st.rightJoin.arity == st.right.arity
    ensures out == JoinSpec(st.leftJoin, st.rightJoin, st.left.rows, st.right.rows)
    ensures st.left.rows == [] || st.right.rows == [] ==> out == []
  {
    var done;
    out, done := JoinAll(JoinOpen(st));
    if st.right.rows == [] {
      JoinSpecNoRight(st.leftJoin, st.rightJoin, st.left.rows);
    }
  }
}
