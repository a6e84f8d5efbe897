/** Column selection for the iterators. `ColumnSelector` itself is not part
    of this model: a selector is taken to hold the chosen positions in the
    order given (`selected(i)`) and the remaining positions of `[0, arity)`
    in ascending order (`unselected(i)`). */
module Selectors {
  import opened Seqs

  /** `0, 1, …, n-1`. */
  function Range(n: nat): (r: seq<nat>)
    ensures |r| == n
    ensures forall i | 0 <= i < n :: r[i] == i
  {
    seq(n, i => i)
  }

  function IsSelected(sel: seq<nat>): nat -> bool {
    k => k in sel
  }

  function NotSelected(sel: seq<nat>): nat -> bool {
    k => k !in sel
  }

  /** A `ColumnSelector` over an `arity`-column input: the chosen positions
      (`selected(i)`) and the remaining ones (`unselected(i)`). */
  datatype Selector = Selector(arity: nat, selected: seq<nat>, unselected: seq<nat>) {
    /** Every position, chosen or not, names a column of the input. */
    predicate Valid() {
      (forall i | 0 <= i < |selected| :: selected[i] < arity)
      && (forall i | 0 <= i < |unselected| :: unselected[i] < arity)
    }

    /** The unselected positions are the rest of `[0, arity)`, ascending. */
    predicate Partitions() {
      unselected == Complement(arity, selected)
    }
  }

  /** The constructor `ColumnSelector(arity, columns)`. */
  function NewSelector(arity: nat, columns: seq<nat>): (s: Selector)
    requires forall i | 0 <= i < |columns| :: columns[i] < arity
    ensures s.Valid() && s.Partitions() && s.arity == arity && s.selected == columns
  {
    Selector(arity, columns, Complement(arity, columns))
  }

  /** The positions of `[0, arity)` not in `sel`, ascending. */
  function Complement(arity: nat, sel: seq<nat>): (u: seq<nat>)
    ensures forall k: nat :: k in u <==> k < arity && k !in sel
    ensures forall i | 0 <= i < |u| :: u[i] < arity
    ensures Distinct(u)
  {
    RangeDistinct(arity);
    RangeMembers(arity);
    FilterMembers(NotSelected(sel), Range(arity));
    FilterDistinct(NotSelected(sel), Range(arity));
    var u := Filter(NotSelected(sel), Range(arity));
    assert forall i | 0 <= i < |u| :: u[i] in u;
    u
  }

  /** The values of `row` at the positions `idx`, in that order. */
  function Pick(row: seq<string>, idx: seq<nat>): (vs: seq<string>)
    requires forall i | 0 <= i < |idx| :: idx[i] < |row|
    ensures |vs| == |idx|
    ensures forall i | 0 <= i < |idx| :: vs[i] == row[idx[i]]
  {
    seq(|idx|, i requires 0 <= i < |idx| => row[idx[i]])
  }

  lemma RangeMembers(n: nat)
    ensures forall k: nat :: k in Range(n) <==> k < n
  {
    forall k: nat | k < n ensures k in Range(n) {
      assert Range(n)[k] == k;
    }
  }

  lemma RangeDistinct(n: nat)
    ensures Distinct(Range(n))
  {
  }

  /** A filter and its complement split a sequence. */
  lemma {:induction false} FilterComplement(sel: seq<nat>, xs: seq<nat>)
    ensures |Filter(IsSelected(sel), xs)| + |Filter(NotSelected(sel), xs)| == |xs|
  {
    if xs != [] {
      FilterComplement(sel, xs[1..]);
    }
  }

  /** With duplicate-free choices, `n_unselected()` is `arity - n_selected()`. */
  lemma UnselectedCount(s: Selector)
    requires s.Valid() && s.Partitions() && Distinct(s.selected)
    ensures |s.unselected| == s.arity - |s.selected|
  {
    var a := Filter(IsSelected(s.selected), Range(s.arity));
    RangeDistinct(s.arity);
    FilterDistinct(IsSelected(s.selected), Range(s.arity));
    FilterMembers(IsSelected(s.selected), Range(s.arity));
    assert Elements(a) == Elements(s.selected) by {
      RangeMembers(s.arity);
    }
    ElementsCardinality(a);
    ElementsCardinality(s.selected);
    FilterComplement(s.selected, Range(s.arity));
  }
}
