/** Whole-table relational algebra (`RelationalAlgebra/RelationalAlgebra.cpp`).
    Every operation builds a fresh result table through the `Table`
    constructor and fills it with `addRow`, so its row set is whatever the
    duplicate-rejecting `add` leaves. The catalogue that names result
    tables is not modelled: the caller passes the fresh `name`. The source
    walks row sets in `RowSet` order; the loops below pick rows in an
    arbitrary order, which is all a set result can depend on. */
module Algebra {
  import opened Results
  import opened Seqs
  import opened Rows
  import opened Tables

  /** A `NameMap` in its iteration order: (old column name, new column name). */
  type NameMap = seq<(string, string)>

  // ---------------------------------------------------------------------
  // Checks and helpers

  /** `unionCompatible`: only the column counts are compared, never the names. */
  predicate UnionCompatible(r: Table, s: Table) {
    |r.columns| == |s.columns|
  }

  /** `disjointColumnsNames_Check`: compares every column of `r` with every column of `s`. */
  method DisjointColumnNames(r: Table, s: Table) returns (disjoint: bool)
    ensures disjoint <==> forall c | c in r.columns :: c !in s.columns
  {
    var i := 0;
    while i < |r.columns|
      invariant 0 <= i <= |r.columns|
      invariant forall k | 0 <= k < i :: r.columns[k] !in s.columns
    {
      var j := 0;
      while j < |s.columns|
        invariant 0 <= j <= |s.columns|
        invariant forall m | 0 <= m < j :: s.columns[m] != r.columns[i]
      {
        if r.columns[i] == s.columns[j] {
          assert r.columns[i] in r.columns && r.columns[i] in s.columns;
          return false;
        }
        j := j + 1;
      }
      i := i + 1;
    }
    return true;
  }

  /** `addRow`: builds a row of `t` by appending `values` one by one (which
      throws once the row is full) and hands it to `add` (which throws when
      it is short). Once the row is built it behaves exactly as `add`. */
  function AddRow(t: Table, values: seq<string>): (res: Result<(Table, bool)>)
    ensures res.Ok? <==> |values| == |t.columns|
    ensures res.Err? ==> res.error == (if |values| > |t.columns| then RowFull else TooFewValues)
    ensures res.Ok? ==> res == Add(t, values)
  {
    var row :- AppendAll(NewRow(t.columns), values);
    assert Data(row) == values;
    Add(t, Data(row))
  }

  /** Adds, in any order, every row of `rows` that `keep` accepts: the loop
      over a table's rows that passes each accepted row to `addRow`. */
  method InsertWhere(t: Table, rows: set<seq<string>>, keep: seq<string> -> bool) returns (t': Table)
    requires t.Valid()
    requires forall x | x in rows :: |x| == |t.columns|
    ensures t'.Valid() && t'.name == t.name && t'.columns == t.columns
    ensures t'.rows == t.rows + set x | x in rows && keep(x)
  {
    t' := t;
    var todo := rows;
    while todo != {}
      invariant todo <= rows
      invariant t'.Valid() && t'.name == t.name && t'.columns == t.columns
      invariant t'.rows == t.rows + set x | x in rows - todo && keep(x)
      decreases todo
    {
      var x :| x in todo;
      ghost var before := set y | y in rows - todo && keep(y);
      if keep(x) {
        var added := AddRow(t', x);
        t' := added.value.0;
      }
      todo := todo - {x};
      assert (set y | y in rows - todo && keep(y)) == before + (if keep(x) then {x} else {});
    }
  }

  // ---------------------------------------------------------------------
  // Set operations

  /** `onion`: throws unless the tables are union compatible; otherwise a table
      with `r`'s columns holding every row of either table once. */
  method Onion(r: Table, s: Table, name: string) returns (res: Result<Table>)
    requires r.Valid() && s.Valid()
    ensures res.Ok? <==> UnionCompatible(r, s)
    ensures res.Err? ==> res.error == UnionIncompatible
    ensures res.Ok? ==> res.value.Valid() && res.value.name == name && res.value.columns == r.columns
    ensures res.Ok? ==> res.value.rows == r.rows + s.rows
  {
    if !UnionCompatible(r, s) {
      return Err(UnionIncompatible);
    }
    var made := MakeTable(name, r.columns);
    var t := made.value;
    var all := (x: seq<string>) => true;
    t := InsertWhere(t, r.rows, all);
    t := InsertWhere(t, s.rows, all);
    assert (set x | x in r.rows && all(x)) == r.rows;
    assert (set x | x in s.rows && all(x)) == s.rows;
    return Ok(t);
  }

  /** `intersect`: the rows of `r` that `s` also holds. */
  method Intersect(r: Table, s: Table, name: string) returns (res: Result<Table>)
    requires r.Valid() && s.Valid()
    ensures res.Ok? <==> UnionCompatible(r, s)
    ensures res.Err? ==> res.error == UnionIncompatible
    ensures res.Ok? ==> res.value.Valid() && res.value.name == name && res.value.columns == r.columns
    ensures res.Ok? ==> forall x :: x in res.value.rows <==> x in r.rows && x in s.rows
  {
    if !UnionCompatible(r, s) {
      return Err(UnionIncompatible);
    }
    var made := MakeTable(name, r.columns);
    var t := made.value;
    t := InsertWhere(t, r.rows, x => x in s.rows);
    return Ok(t);
  }

  /** `diff`: the rows of `r` that `s` does not hold. */
  method Diff(r: Table, s: Table, name: string) returns (res: Result<Table>)
    requires r.Valid() && s.Valid()
    ensures res.Ok? <==> UnionCompatible(r, s)
    ensures res.Err? ==> res.error == UnionIncompatible
    ensures res.Ok? ==> res.value.Valid() && res.value.name == name && res.value.columns == r.columns
    ensures res.Ok? ==> forall x :: x in res.value.rows <==> x in r.rows && x !in s.rows
  {
    if !UnionCompatible(r, s) {
      return Err(UnionIncompatible);
    }
    var made := MakeTable(name, r.columns);
    var t := made.value;
    t := InsertWhere(t, r.rows, x => x !in s.rows);
    return Ok(t);
  }

  /** `select`: `r`'s columns and exactly the rows of `r` the predicate accepts. */
  method Select(r: Table, predicate_: seq<string> -> bool, name: string) returns (t: Table)
    requires r.Valid()
    ensures t.Valid() && t.name == name && t.columns == r.columns
    ensures forall x :: x in t.rows <==> x in r.rows && predicate_(x)
  {
    var made := MakeTable(name, r.columns);
    t := InsertWhere(made.value, r.rows, predicate_);
  }

  // ---------------------------------------------------------------------
  // Renaming

  /** The keys of a name map, in iteration order. */
  function Keys(m: NameMap): (ks: seq<string>)
    ensures |ks| == |m|
  {
    seq(|m|, i requires 0 <= i < |m| => m[i].0)
  }

  /** The new name the first entry for `c` gives it, or `c` when no entry mentions it. */
  function Lookup(m: NameMap, c: string): (n: string)
    ensures c !in Keys(m) ==> n == c
    ensures c in Keys(m) ==> n == m[IndexOf(Keys(m), c)].1
  {
    if m == [] then c
    else
      assert Keys(m) == [m[0].0] + Keys(m[1..]);
      if m[0].0 == c then m[0].1 else Lookup(m[1..], c)
  }

  /** Every column of `cols` replaced by its new name, all at once. */
  function RenameAll(cols: seq<string>, m: NameMap): (renamed: seq<string>)
    ensures |renamed| == |cols|
    ensures forall i | 0 <= i < |cols| :: renamed[i] == Lookup(m, cols[i])
  {
    seq(|cols|, i requires 0 <= i < |cols| => Lookup(m, cols[i]))
  }

  /** One step of the source's column loop: every occurrence of `k` becomes `v`. */
  function RenameOnce(cols: seq<string>, k: string, v: string): (renamed: seq<string>)
    ensures |renamed| == |cols|
  {
    seq(|cols|, i requires 0 <= i < |cols| => if cols[i] == k then v else cols[i])
  }

  /** The source's column loop: the entries are applied one after another to
      the columns as the previous entries left them, and an entry whose key is
      not (or no longer) among them throws. */
  function RenameInTurn(cols: seq<string>, m: NameMap): (res: Result<seq<string>>)
    ensures res.Ok? ==> |res.value| == |cols|
    ensures res.Err? ==> res.error == RenameMissing
    ensures m != [] && m[0].0 !in cols ==> res.Err?
    decreases |m|
  {
    if m == [] then Ok(cols)
    else if m[0].0 !in cols then Err(RenameMissing)
    else RenameInTurn(RenameOnce(cols, m[0].0, m[0].1), m[1..])
  }

  /** The column computation of `rename` as written: size check, repeated-key
      check, then the entries applied in turn. A swap such as {a->b, b->a}
      renames `a` to `b` and then both `b`s back to `a`. */
  function RenameColumnsAsWritten(cols: seq<string>, m: NameMap): (res: Result<seq<string>>)
    ensures res.Ok? ==> |cols| == |m| && Distinct(Keys(m)) && |res.value| == |cols|
    ensures |cols| != |m| ==> res == Err(RenameCountMismatch)
    ensures |cols| == |m| && !Distinct(Keys(m)) ==> res == Err(RenameTwice)
  {
    ElementsCardinality(Keys(m));
    if |cols| != |m| then Err(RenameCountMismatch)
    else if |Elements(Keys(m))| != |m| then Err(RenameTwice)
    else RenameInTurn(cols, m)
  }

  /** The column computation `rename` evidently intends: the same three
      checks, with every key looked up among the original columns and every
      column renamed at once, each in its own position. */
  function RenameColumns(cols: seq<string>, m: NameMap): (res: Result<seq<string>>)
    ensures res.Ok? <==> |cols| == |m| && Distinct(Keys(m)) && forall k | k in Keys(m) :: k in cols
    ensures res.Err? ==>
      res.error == (if |cols| != |m| then RenameCountMismatch
                    else if !Distinct(Keys(m)) then RenameTwice
                    else RenameMissing)
    ensures res.Ok? ==> |res.value| == |cols|
    ensures res.Ok? ==> forall i | 0 <= i < |cols| ::
      res.value[i] == (if cols[i] in Keys(m) then m[IndexOf(Keys(m), cols[i])].1 else cols[i])
  {
    ElementsCardinality(Keys(m));
    if |cols| != |m| then Err(RenameCountMismatch)
    else if |Elements(Keys(m))| != |m| then Err(RenameTwice)
    else if exists k | k in Keys(m) :: k !in cols then Err(RenameMissing)
    else Ok(RenameAll(cols, m))
  }

  /** The swap map shows the two apart: as written, {a->b, b->a} turns
      columns [a, b] into [a, a]; the intended rename gives [b, a]. */
  lemma RenameSwapDiffers()
    ensures RenameColumnsAsWritten(["a", "b"], [("a", "b"), ("b", "a")]) == Ok(["a", "a"])
    ensures RenameColumns(["a", "b"], [("a", "b"), ("b", "a")]) == Ok(["b", "a"])
  {
    var cols: seq<string> := ["a", "b"];
    var m: NameMap := [("a", "b"), ("b", "a")];
    assert Keys(m) == cols;
    assert Elements(cols) == {"a", "b"};
    assert "a" != "b" by {
      assert "a"[0] != "b"[0];
    }
    assert |Elements(Keys(m))| == 2;
    var once := RenameOnce(cols, "a", "b");
    assert once == ["b", "b"];
    var twice := RenameOnce(once, "b", "a");
    assert twice == ["a", "a"];
    assert RenameInTurn(twice, []) == Ok(twice);
    assert RenameInTurn(cols, m) == Ok(["a", "a"]);
    assert Distinct(Keys(m));
    assert forall k | k in Keys(m) :: k in cols;
    assert Lookup(m, "a") == "b";
    assert Lookup(m, "b") == "a" by {
      assert m[1..] == [("b", "a")];
    }
    assert RenameAll(cols, m) == ["b", "a"];
  }

  /** Where no new name is also a key, applying the entries in turn is the
      same as renaming at once: the source is right on such maps. */
  lemma {:induction false} RenameInTurnAgrees(cols: seq<string>, m: NameMap)
    requires Distinct(Keys(m))
    requires NoChain(m)
    ensures RenameInTurn(cols, m) ==
      if forall k | k in Keys(m) :: k in cols then Ok(RenameAll(cols, m)) else Err(RenameMissing)
    decreases |m|
  {
    if m == [] {
      assert RenameAll(cols, m) == cols;
    } else {
      var k0, v0 := m[0].0, m[0].1;
      var rest := m[1..];
      TailKeys(m);
      if k0 in cols {
        var cols' := RenameOnce(cols, k0, v0);
        RenameInTurnAgrees(cols', rest);
        forall k | k in Keys(rest)
          ensures k in cols' <==> k in cols
        {
          RenameOnceMembers(cols, k0, v0, k);
        }
        assert (forall k | k in Keys(rest) :: k in cols') <==> (forall k | k in Keys(m) :: k in cols);
        RenameOnceThenAll(cols, m);
      } else {
        assert k0 in Keys(m);
      }
    }
  }

  /** On a map where no new name is also a key, `rename` as written and as
      intended compute the same columns and fail in the same way. */
  lemma AsWrittenAgreesWithoutChains(cols: seq<string>, m: NameMap)
    requires NoChain(m)
    ensures RenameColumnsAsWritten(cols, m) == RenameColumns(cols, m)
  {
    ElementsCardinality(Keys(m));
    if |cols| == |m| && Distinct(Keys(m)) {
      RenameInTurnAgrees(cols, m);
    }
  }

  /** No new name of the map is also one of its keys. */
  predicate NoChain(m: NameMap) {
    forall j, k | 0 <= j < |m| && 0 <= k < |m| :: m[j].1 != m[k].0
  }

  /** The tail of a chain-free map with distinct keys is one too, and
      mentions neither the head's key nor its new name as a key. */
  lemma TailKeys(m: NameMap)
    requires |m| > 0 && Distinct(Keys(m)) && NoChain(m)
    ensures Keys(m) == [m[0].0] + Keys(m[1..])
    ensures Distinct(Keys(m[1..])) && NoChain(m[1..])
    ensures forall k | k in Keys(m[1..]) :: k != m[0].0 && k != m[0].1
  {
    var rest := m[1..];
    assert Keys(m) == [m[0].0] + Keys(rest);
    forall i, j | 0 <= i < j < |rest|
      ensures Keys(rest)[i] != Keys(rest)[j]
    {
      assert Keys(rest)[i] == Keys(m)[i + 1] && Keys(rest)[j] == Keys(m)[j + 1];
    }
    forall k | k in Keys(rest)
      ensures k != m[0].0 && k != m[0].1
    {
      var j :| 0 <= j < |rest| && Keys(rest)[j] == k;
      assert k == Keys(m)[j + 1] && k == m[j + 1].0;
      assert Keys(m)[0] == m[0].0 && Keys(m)[0] != Keys(m)[j + 1];
    }
  }

  lemma RenameOnceMembers(cols: seq<string>, k0: string, v0: string, k: string)
    requires k != k0 && k != v0
    ensures k in RenameOnce(cols, k0, v0) <==> k in cols
  {
    var cols' := RenameOnce(cols, k0, v0);
    if k in cols {
      var i :| 0 <= i < |cols| && cols[i] == k;
      assert cols'[i] == k;
    }
    if k in cols' {
      var i :| 0 <= i < |cols'| && cols'[i] == k;
      assert cols[i] == k;
    }
  }

  lemma RenameOnceThenAll(cols: seq<string>, m: NameMap)
    requires |m| > 0
    requires m[0].1 !in Keys(m[1..])
    ensures RenameAll(RenameOnce(cols, m[0].0, m[0].1), m[1..]) == RenameAll(cols, m)
  {
    var cols' := RenameOnce(cols, m[0].0, m[0].1);
    forall i | 0 <= i < |cols|
      ensures Lookup(m[1..], cols'[i]) == Lookup(m, cols[i])
    {
    }
  }

  /** `rename`: throws when the map size differs from the column count, when
      it names a column twice and when a key is not a column; otherwise a
      table whose columns are renamed in place and whose rows are `r`'s.
      (The result table's constructor also throws when two columns end up
      with one name.) */
  method Rename(r: Table, m: NameMap, name: string) returns (res: Result<Table>)
    requires r.Valid()
    ensures RenameColumns(r.columns, m).Err? ==> res == Err(RenameColumns(r.columns, m).error)
    ensures RenameColumns(r.columns, m).Ok? ==>
      (res.Ok? <==> Distinct(RenameColumns(r.columns, m).value))
    ensures res.Err? && RenameColumns(r.columns, m).Ok? ==> res.error == DuplicateColumns
    ensures res.Ok? ==> res.value.Valid() && res.value.name == name && res.value.rows == r.rows
    ensures res.Ok? ==> res.value.columns == RenameColumns(r.columns, m).value
    ensures res.Ok? ==> |res.value.columns| == |r.columns|
    ensures res.Ok? ==> forall i | 0 <= i < |r.columns| :: res.value.columns[i] == Lookup(m, r.columns[i])
  {
    var cols :- RenameColumns(r.columns, m);
    var t :- MakeTable(name, cols);
    t := InsertWhere(t, r.rows, x => true);
    assert (set x | x in r.rows && true) == r.rows;
    return Ok(t);
  }

  // ---------------------------------------------------------------------
  // Product

  /** `namemapCreate`: each column mapped to itself behind the table's name. */
  function NameMapCreate(t: Table): (m: NameMap)
    ensures Keys(m) == t.columns
    ensures forall i | 0 <= i < |m| :: m[i].1 == t.name + t.columns[i]
  {
    seq(|t.columns|, i requires 0 <= i < |t.columns| => (t.columns[i], t.name + t.columns[i]))
  }

  /** Every name behind `prefix`. */
  function Prefixed(prefix: string, names: seq<string>): (ps: seq<string>)
    ensures |ps| == |names|
  {
    seq(|names|, i requires 0 <= i < |names| => prefix + names[i])
  }

  /** Renaming a table by its own `namemapCreate` succeeds and prefixes every column. */
  lemma PrefixRename(t: Table)
    requires t.Valid()
    ensures RenameColumns(t.columns, NameMapCreate(t)) == Ok(Prefixed(t.name, t.columns))
    ensures Distinct(Prefixed(t.name, t.columns))
  {
    var m := NameMapCreate(t);
    var renamed := RenameAll(t.columns, m);
    forall i | 0 <= i < |t.columns|
      ensures renamed[i] == Prefixed(t.name, t.columns)[i]
    {
      var k := IndexOf(Keys(m), t.columns[i]);
      assert k == i;
    }
    assert renamed == Prefixed(t.name, t.columns);
    PrefixDistinct(t.name, t.columns);
  }

  /** Names that differ still differ behind a common prefix. */
  lemma PrefixDistinct(prefix: string, names: seq<string>)
    requires Distinct(names)
    ensures Distinct(Prefixed(prefix, names))
  {
    var ps := Prefixed(prefix, names);
    forall i, j | 0 <= i < j < |ps|
      ensures ps[i] != ps[j]
    {
      assert ps[i][|prefix|..] == names[i];
      assert ps[j][|prefix|..] == names[j];
    }
  }

  /** Every row of `xs` followed by every row of `ys`. */
  ghost function ProductRows(xs: set<seq<string>>, ys: set<seq<string>>): set<seq<string>> {
    set a, b | a in xs && b in ys :: a + b
  }

  lemma ProductRowsStep(xs: set<seq<string>>, a: seq<string>, ys: set<seq<string>>)
    ensures ProductRows(xs + {a}, ys) == ProductRows(xs, ys) + set b | b in ys :: a + b
  {
  }

  /** The inner loop of `product`: `addRow(result, a ++ s_row)` for every row of `s`. */
  method InsertPrefixed(t: Table, a: seq<string>, ys: set<seq<string>>) returns (t': Table)
    requires t.Valid()
    requires forall b | b in ys :: |a| + |b| == |t.columns|
    ensures t'.Valid() && t'.name == t.name && t'.columns == t.columns
    ensures t'.rows == t.rows + set b | b in ys :: a + b
  {
    t' := t;
    var inner := ys;
    while inner != {}
      invariant inner <= ys
      invariant t'.Valid() && t'.name == t.name && t'.columns == t.columns
      invariant t'.rows == t.rows + set b | b in ys - inner :: a + b
      decreases inner
    {
      var b :| b in inner;
      ghost var before := set c | c in ys - inner :: a + c;
      var added := AddRow(t', a + b);
      t' := added.value.0;
      inner := inner - {b};
      assert (set c | c in ys - inner :: a + c) == before + {a + b};
    }
  }

  /** The nested loops of `product`: `addRow(result, r_row ++ s_row)` for every pair. */
  method InsertProduct(t: Table, xs: set<seq<string>>, ys: set<seq<string>>, n: nat) returns (t': Table)
    requires t.Valid()
    requires forall a | a in xs :: |a| == n
    requires forall b | b in ys :: n + |b| == |t.columns|
    ensures t'.Valid() && t'.name == t.name && t'.columns == t.columns
    ensures t'.rows == t.rows + ProductRows(xs, ys)
  {
    t' := t;
    var todo := xs;
    while todo != {}
      invariant todo <= xs
      invariant t'.Valid() && t'.name == t.name && t'.columns == t.columns
      invariant t'.rows == t.rows + ProductRows(xs - todo, ys)
      decreases todo
    {
      var a :| a in todo;
      t' := InsertPrefixed(t', a, ys);
      ProductRowsStep(xs - todo, a, ys);
      assert xs - (todo - {a}) == (xs - todo) + {a};
      todo := todo - {a};
    }
  }

  /** `product`: throws unless the column names are disjoint; otherwise the
      columns of `r` behind `r`'s name followed by those of `s` behind `s`'s
      name, and every row of `r` followed by every row of `s`. The result
      constructor throws when two prefixed names coincide. */
  method Product(r: Table, s: Table, name: string) returns (res: Result<Table>)
    requires r.Valid() && s.Valid()
    ensures res.Ok? <==>
      (forall c | c in r.columns :: c !in s.columns) &&
      Distinct(Prefixed(r.name, r.columns) + Prefixed(s.name, s.columns))
    ensures !(forall c | c in r.columns :: c !in s.columns) ==> res == Err(ColumnsNotDisjoint)
    ensures res.Ok? ==> res.value.Valid() && res.value.name == name
    ensures res.Ok? ==> res.value.columns == Prefixed(r.name, r.columns) + Prefixed(s.name, s.columns)
    ensures res.Ok? ==> res.value.rows == ProductRows(r.rows, s.rows)
  {
    var disjoint := DisjointColumnNames(r, s);
    if !disjoint {
      return Err(ColumnsNotDisjoint);
    }
    PrefixRename(r);
    PrefixRename(s);
    var renamedR := Rename(r, NameMapCreate(r), name);
    var renamedS := Rename(s, NameMapCreate(s), name);
    var r', s' := renamedR.value, renamedS.value;
    var t :- MakeTable(name, r'.columns + s'.columns);
    t := InsertProduct(t, r'.rows, s'.rows, |r.columns|);
    return Ok(t);
  }

  /** The column computation of `product` as written: after the disjointness
      check, each table is renamed by its own `namemapCreate` through the
      in-turn rename, each renamed table is built (its constructor rejects a
      repeated name), and the result table is built on the two lists together.
      The map's entries are taken in `NameMapCreate`'s column order. */
  function ProductColumnsAsWritten(r: Table, s: Table): (res: Result<seq<string>>)
    ensures !(forall c | c in r.columns :: c !in s.columns) ==> res == Err(ColumnsNotDisjoint)
    ensures res.Ok? ==> |res.value| == |r.columns| + |s.columns| && Distinct(res.value)
  {
    if exists c | c in r.columns :: c in s.columns then Err(ColumnsNotDisjoint)
    else
      var rc :- RenameColumnsAsWritten(r.columns, NameMapCreate(r));
      if !Distinct(rc) then Err(DuplicateColumns)
      else
        var sc :- RenameColumnsAsWritten(s.columns, NameMapCreate(s));
        if !Distinct(sc) || !Distinct(rc + sc) then Err(DuplicateColumns)
        else Ok(rc + sc)
  }

  /** A column that is the table's name followed by another of its columns
      is prefixed twice as written: table x with columns [a, xa] is renamed
      to [xa, xa] and then [xxa, xxa], so `product` throws, while the
      intended product of x with table y of columns [b] has the distinct
      columns [xa, xxa, yb] and succeeds by the contract of `Product`. */
  lemma ProductChainedPrefixFails()
    ensures var r, s := Table("x", ["a", "xa"], {}), Table("y", ["b"], {});
      && r.Valid() && s.Valid()
      && RenameColumnsAsWritten(r.columns, NameMapCreate(r)) == Ok(["xxa", "xxa"])
      && ProductColumnsAsWritten(r, s) == Err(DuplicateColumns)
      && (forall c | c in r.columns :: c !in s.columns)
      && Prefixed(r.name, r.columns) + Prefixed(s.name, s.columns) == ["xa", "xxa", "yb"]
      && Distinct(Prefixed(r.name, r.columns) + Prefixed(s.name, s.columns))
  {
    var r, s := Table("x", ["a", "xa"], {}), Table("y", ["b"], {});
    assert "a" != "xa" && "b" != "a" && "b" != "xa";
    assert r.Valid() && s.Valid();
    ChainedRename(r);
    var twice: seq<string> := ["xxa", "xxa"];
    assert twice[0] == twice[1];
    ChainedPrefixes(r, s);
  }

  /** The in-turn rename of table x's columns [a, xa] by its `namemapCreate`. */
  lemma ChainedRename(r: Table)
    requires r == Table("x", ["a", "xa"], {})
    ensures RenameColumnsAsWritten(r.columns, NameMapCreate(r)) == Ok(["xxa", "xxa"])
  {
    var cols: seq<string> := ["a", "xa"];
    assert "a" != "xa";
    var m := NameMapCreate(r);
    assert "x" + "a" == "xa" && "x" + "xa" == "xxa";
    assert m[0] == ("a", "xa") && m[1] == ("xa", "xxa");
    assert m == [("a", "xa"), ("xa", "xxa")];
    assert Keys(m) == cols;
    assert Elements(cols) == {"a", "xa"};
    assert |Elements(Keys(m))| == 2;
    var once := RenameOnce(cols, "a", "xa");
    assert once == ["xa", "xa"];
    var twice := RenameOnce(once, "xa", "xxa");
    assert twice == ["xxa", "xxa"];
    assert RenameInTurn(twice, []) == Ok(twice);
    assert RenameInTurn(cols, m) == Ok(twice);
  }

  /** The intended product columns of tables x [a, xa] and y [b]. */
  lemma ChainedPrefixes(r: Table, s: Table)
    requires r == Table("x", ["a", "xa"], {}) && s == Table("y", ["b"], {})
    ensures Prefixed(r.name, r.columns) + Prefixed(s.name, s.columns) == ["xa", "xxa", "yb"]
    ensures Distinct(Prefixed(r.name, r.columns) + Prefixed(s.name, s.columns))
  {
    assert "x" + "a" == "xa" && "x" + "xa" == "xxa" && "y" + "b" == "yb";
    assert "xa" != "xxa" by {
      assert |"xa"| != |"xxa"|;
    }
    assert "xa" != "yb" && "xxa" != "yb" by {
      assert "xa"[0] != "yb"[0] && "xxa"[0] != "yb"[0];
    }
    assert Prefixed(r.name, r.columns)[0] == "xa" && Prefixed(r.name, r.columns)[1] == "xxa";
    assert Prefixed(r.name, r.columns) == ["xa", "xxa"];
    assert Prefixed(s.name, s.columns)[0] == "yb";
    assert Prefixed(s.name, s.columns) == ["yb"];
  }

  /** Where no prefixed name of a table is also one of its columns, `product`
      as written computes the columns the intended `Product` promises, and
      fails exactly where it fails. */
  lemma ProductAsWrittenAgrees(r: Table, s: Table)
    requires r.Valid() && s.Valid()
    requires NoChain(NameMapCreate(r)) && NoChain(NameMapCreate(s))
    ensures ProductColumnsAsWritten(r, s) ==
      if !(forall c | c in r.columns :: c !in s.columns) then Err(ColumnsNotDisjoint)
      else if !Distinct(Prefixed(r.name, r.columns) + Prefixed(s.name, s.columns)) then Err(DuplicateColumns)
      else Ok(Prefixed(r.name, r.columns) + Prefixed(s.name, s.columns))
  {
    AsWrittenAgreesWithoutChains(r.columns, NameMapCreate(r));
    AsWrittenAgreesWithoutChains(s.columns, NameMapCreate(s));
    PrefixRename(r);
    PrefixRename(s);
  }

  // ---------------------------------------------------------------------
  // Projection

  /** The values of `row`, laid out by `schema`, at the columns `names`, in the order of `names`. */
  function ValuesAt(row: seq<string>, schema: seq<string>, names: seq<string>): (vs: seq<string>)
    requires |row| == |schema|
    requires forall c | c in names :: c in schema
    ensures |vs| == |names|
  {
    seq(|names|, i requires 0 <= i < |names| => row[IndexOf(schema, names[i])])
  }

  /** The `value(columns[i])` loop: stops at the first name the row's table lacks. */
  function ProjectValues(row: Row, names: seq<string>): (res: Result<seq<string>>)
    requires |row.values| == |row.schema| && Distinct(row.schema)
    ensures res.Ok? <==> forall c | c in names :: c in row.schema
    ensures res.Err? ==> res.error == NoSuchColumn
    ensures res.Ok? ==> res.value == ValuesAt(row.values, row.schema, names)
    decreases |names|
  {
    if names == [] then Ok([])
    else
      var v :- Value(row, names[0]);
      var rest :- ProjectValues(row, names[1..]);
      assert v == row.values[IndexOf(row.schema, names[0])];
      Ok([v] + rest)
  }

  /** `project`: throws on an empty column list and on a name that is not a
      column; otherwise a table whose columns are the request and whose rows
      are `r`'s rows cut down to the requested columns, in requested order.
      The result constructor throws when the request names a column twice. */
  method Project(r: Table, columns: seq<string>, name: string) returns (res: Result<Table>)
    requires r.Valid()
    ensures res.Ok? <==> |columns| > 0 && (forall c | c in columns :: c in r.columns) && Distinct(columns)
    ensures res.Err? ==>
      res.error == (if |columns| == 0 then EmptyProjection
                    else if exists c | c in columns :: c !in r.columns then ProjectMissing
                    else DuplicateColumns)
    ensures res.Ok? ==> res.value.Valid() && res.value.name == name && res.value.columns == columns
    ensures res.Ok? && (forall c | c in columns :: c in r.columns) ==>
      res.value.rows == set x | x in r.rows :: ValuesAt(x, r.columns, columns)
  {
    if |columns| == 0 {
      return Err(EmptyProjection);
    }
    if exists c | c in columns :: c !in r.columns {
      return Err(ProjectMissing);
    }
    var t :- MakeTable(name, columns);
    var todo := r.rows;
    while todo != {}
      invariant todo <= r.rows
      invariant t.Valid() && t.name == name && t.columns == columns
      invariant t.rows == set x | x in r.rows - todo :: ValuesAt(x, r.columns, columns)
      decreases todo
    {
      var x :| x in todo;
      ghost var before := set y | y in r.rows - todo :: ValuesAt(y, r.columns, columns);
      var values := ProjectValues(Row(r.columns, x), columns);
      var added := AddRow(t, values.value);
      t := added.value.0;
      todo := todo - {x};
      assert (set y | y in r.rows - todo :: ValuesAt(y, r.columns, columns))
        == before + {ValuesAt(x, r.columns, columns)};
    }
    return Ok(t);
  }

  // ---------------------------------------------------------------------
  // Natural join

  function InColumns(cols: seq<string>): string -> bool {
    c => c in cols
  }

  function NotInColumns(cols: seq<string>): string -> bool {
    c => c !in cols
  }

  /** `sameColumns`: the columns of `s` that `r` also has, in `s`'s order. */
  function Common(r: Table, s: Table): seq<string> {
    Filter(InColumns(r.columns), s.columns)
  }

  /** `joinColumns_for_s`: the columns of `s` that `r` lacks, in `s`'s order. */
  function Others(r: Table, s: Table): seq<string> {
    Filter(NotInColumns(r.columns), s.columns)
  }

  /** The scan of `r`'s columns for one column of `s`, stopping at the first match. */
  method HasColumn(cols: seq<string>, c: string) returns (isSame: bool)
    ensures isSame <==> c in cols
  {
    isSame := false;
    var i := 0;
    while i < |cols| && !isSame
      invariant 0 <= i <= |cols|
      invariant isSame ==> c in cols
      invariant !isSame ==> c !in cols[..i]
    {
      if c == cols[i] {
        isSame := true;
      }
      assert cols[..i + 1] == cols[..i] + [cols[i]];
      i := i + 1;
    }
    assert !isSame ==> cols[..i] == cols;
  }

  /** The first loop of `join`: sorts each column of `s` by whether `r` has it. */
  method SplitColumns(r: Table, s: Table) returns (same: seq<string>, others: seq<string>)
    ensures same == Common(r, s) && others == Others(r, s)
  {
    same, others := [], [];
    var j := 0;
    while j < |s.columns|
      invariant 0 <= j <= |s.columns|
      invariant same == Filter(InColumns(r.columns), s.columns[..j])
      invariant others == Filter(NotInColumns(r.columns), s.columns[..j])
    {
      var c := s.columns[j];
      var isSame := HasColumn(r.columns, c);
      SplitStep(r.columns, s.columns, j);
      if isSame {
        same := same + [c];
      } else {
        others := others + [c];
      }
      j := j + 1;
    }
    assert s.columns[..j] == s.columns;
  }

  /** How one more column of `s` extends both halves of the split. */
  lemma SplitStep(cols: seq<string>, names: seq<string>, j: nat)
    requires j < |names|
    ensures Filter(InColumns(cols), names[..j + 1])
         == Filter(InColumns(cols), names[..j]) + (if names[j] in cols then [names[j]] else [])
    ensures Filter(NotInColumns(cols), names[..j + 1])
         == Filter(NotInColumns(cols), names[..j]) + (if names[j] in cols then [] else [names[j]])
  {
    assert names[..j + 1] == names[..j] + [names[j]];
    FilterSnoc(InColumns(cols), names[..j], names[j]);
    FilterSnoc(NotInColumns(cols), names[..j], names[j]);
  }

  /** Every name of `Common(r, s)` is a column of both tables; `Others(r, s)` are columns of `s` only. */
  lemma SplitMembers(r: Table, s: Table)
    ensures forall c | c in Common(r, s) :: c in r.columns && c in s.columns
    ensures forall c | c in Others(r, s) :: c !in r.columns && c in s.columns
  {
    FilterMembers(InColumns(r.columns), s.columns);
    FilterMembers(NotInColumns(r.columns), s.columns);
  }

  /** Row `a` of `r` and row `b` of `s` hold the same value in every common column. */
  predicate Agree(a: seq<string>, b: seq<string>, r: Table, s: Table)
    requires |a| == |r.columns| && |b| == |s.columns|
  {
    SplitMembers(r, s);
    forall c | c in Common(r, s) :: a[IndexOf(r.columns, c)] == b[IndexOf(s.columns, c)]
  }

  /** Row `a` of `r` followed by the values of row `b` of `s` at the columns `r` lacks. */
  function Joined(a: seq<string>, b: seq<string>, r: Table, s: Table): seq<string>
    requires |b| == |s.columns|
  {
    SplitMembers(r, s);
    a + ValuesAt(b, s.columns, Others(r, s))
  }

  /** The rows `join` produces: one per agreeing pair. */
  ghost function JoinRows(xs: set<seq<string>>, ys: set<seq<string>>, r: Table, s: Table): set<seq<string>>
    requires forall a | a in xs :: |a| == |r.columns|
    requires forall b | b in ys :: |b| == |s.columns|
  {
    set a, b | a in xs && b in ys && Agree(a, b, r, s) :: Joined(a, b, r, s)
  }

  lemma JoinRowsStep(xs: set<seq<string>>, a: seq<string>, ys: set<seq<string>>, r: Table, s: Table)
    requires |a| == |r.columns|
    requires forall x | x in xs :: |x| == |r.columns|
    requires forall b | b in ys :: |b| == |s.columns|
    ensures JoinRows(xs + {a}, ys, r, s) == JoinRows(xs, ys, r, s) + MatchRows(a, ys, r, s)
  {
  }

  /** The column loop of `join` for one pair: stops at the first common column where the rows differ. */
  method AllSame(a: seq<string>, b: seq<string>, r: Table, s: Table, same: seq<string>) returns (isAllSame: bool)
    requires r.Valid() && s.Valid()
    requires |a| == |r.columns| && |b| == |s.columns|
    requires same == Common(r, s)
    ensures isAllSame <==> Agree(a, b, r, s)
  {
    SplitMembers(r, s);
    var i := 0;
    while i < |same|
      invariant 0 <= i <= |same|
      invariant forall c | c in same[..i] :: a[IndexOf(r.columns, c)] == b[IndexOf(s.columns, c)]
    {
      var c := same[i];
      var equal := SameValue(a, b, r, s, c);
      if !equal {
        return false;
      }
      assert same[..i + 1] == same[..i] + [c];
      i := i + 1;
    }
    assert same[..i] == same;
    return true;
  }

  /** `a.value(c) == b.value(c)` for a column `c` both tables have. */
  method SameValue(a: seq<string>, b: seq<string>, r: Table, s: Table, c: string) returns (equal: bool)
    requires r.Valid() && s.Valid()
    requires |a| == |r.columns| && |b| == |s.columns|
    requires c in r.columns && c in s.columns
    ensures equal <==> a[IndexOf(r.columns, c)] == b[IndexOf(s.columns, c)]
  {
    var ra := Value(Row(r.columns, a), c);
    var sb := Value(Row(s.columns, b), c);
    equal := ra.value == sb.value;
  }

  /** The inner loop of `join` for one row `a` of `r`: adds the joined row for every agreeing row of `s`. */
  method InsertMatches(t: Table, a: seq<string>, r: Table, s: Table, same: seq<string>, others: seq<string>)
    returns (t': Table)
    requires t.Valid() && r.Valid() && s.Valid()
    requires same == Common(r, s) && others == Others(r, s)
    requires t.columns == r.columns + others
    requires |a| == |r.columns|
    ensures t'.Valid() && t'.name == t.name && t'.columns == t.columns
    ensures t'.rows == t.rows + MatchRows(a, s.rows, r, s)
  {
    t' := t;
    var inner, seen := s.rows, {};
    while inner != {}
      invariant inner !! seen && inner + seen == s.rows
      invariant t'.Valid() && t'.name == t.name && t'.columns == t.columns
      invariant t'.rows == t.rows + MatchRows(a, seen, r, s)
      decreases inner
    {
      var b :| b in inner;
      MatchRowsStep(a, seen, b, r, s);
      t' := JoinPair(t', a, b, r, s, same, others);
      inner, seen := inner - {b}, seen + {b};
    }
    assert seen == s.rows;
  }

  /** The body of the inner loop of `join`: adds the joined row of `a` and
      `b` exactly when they agree on every common column. */
  method JoinPair(t: Table, a: seq<string>, b: seq<string>, r: Table, s: Table, same: seq<string>, others: seq<string>)
    returns (t': Table)
    requires t.Valid() && r.Valid() && s.Valid()
    requires same == Common(r, s) && others == Others(r, s)
    requires t.columns == r.columns + others
    requires |a| == |r.columns| && |b| == |s.columns|
    ensures t'.Valid() && t'.name == t.name && t'.columns == t.columns
    ensures t'.rows == t.rows + (if Agree(a, b, r, s) then {Joined(a, b, r, s)} else {})
  {
    SplitMembers(r, s);
    t' := t;
    var isAllSame := AllSame(a, b, r, s, same);
    if isAllSame {
      var tail := ProjectValues(Row(s.columns, b), others);
      assert a + tail.value == Joined(a, b, r, s);
      var added := AddRow(t', a + tail.value);
      t' := added.value.0;
    }
  }

  /** The joined rows row `a` of `r` makes with the rows `ys` of `s`. */
  ghost function MatchRows(a: seq<string>, ys: set<seq<string>>, r: Table, s: Table): set<seq<string>>
    requires |a| == |r.columns|
    requires forall b | b in ys :: |b| == |s.columns|
  {
    set b | b in ys && Agree(a, b, r, s) :: Joined(a, b, r, s)
  }

  lemma MatchRowsStep(a: seq<string>, ys: set<seq<string>>, b: seq<string>, r: Table, s: Table)
    requires |a| == |r.columns| && |b| == |s.columns|
    requires forall y | y in ys :: |y| == |s.columns|
    ensures MatchRows(a, ys + {b}, r, s) ==
      MatchRows(a, ys, r, s) + (if Agree(a, b, r, s) then {Joined(a, b, r, s)} else {})
  {
  }

  /** The nested loops of `join`: for every pair of rows, adds the joined row when the pair agrees. */
  method InsertJoin(t: Table, r: Table, s: Table, same: seq<string>, others: seq<string>) returns (t': Table)
    requires t.Valid() && r.Valid() && s.Valid()
    requires same == Common(r, s) && others == Others(r, s)
    requires t.columns == r.columns + others
    ensures t'.Valid() && t'.name == t.name && t'.columns == t.columns
    ensures t'.rows == t.rows + JoinRows(r.rows, s.rows, r, s)
  {
    SplitMembers(r, s);
    t' := t;
    var todo := r.rows;
    while todo != {}
      invariant todo <= r.rows
      invariant t'.Valid() && t'.name == t.name && t'.columns == t.columns
      invariant t'.rows == t.rows + JoinRows(r.rows - todo, s.rows, r, s)
      decreases todo
    {
      var a :| a in todo;
      t' := InsertMatches(t', a, r, s, same, others);
      JoinRowsStep(r.rows - todo, a, s.rows, r, s);
      assert r.rows - (todo - {a}) == (r.rows - todo) + {a};
      todo := todo - {a};
    }
  }

  /** `join`: throws `JoinException` when the tables have no column name in
      common; otherwise `r`'s columns followed by the columns of `s` that `r`
      lacks, with one row for every pair of rows that agree on all common columns. */
  method Join(r: Table, s: Table, name: string) returns (res: Result<Table>)
    requires r.Valid() && s.Valid()
    ensures res.Ok? <==> |Common(r, s)| > 0
    ensures res.Err? ==> res.error == NoCommonColumns
    ensures res.Ok? ==> res.value.Valid() && res.value.name == name
    ensures res.Ok? ==> res.value.columns == r.columns + Others(r, s)
    ensures res.Ok? ==> res.value.rows == JoinRows(r.rows, s.rows, r, s)
  {
    var same, others := SplitColumns(r, s);
    if |same| == 0 {
      return Err(NoCommonColumns);
    }
    SplitMembers(r, s);
    FilterDistinct(NotInColumns(r.columns), s.columns);
    DistinctConcat(r.columns, others);
    var made := MakeTable(name, r.columns + others);
    var t := InsertJoin(made.value, r, s, same, others);
    return Ok(t);
  }
}
