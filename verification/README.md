# RelationAlgebra and QueryIterator in Dafny

This project models two parts of a small in-memory relational engine.

The first part is the pull-based query operators of `QueryIterator/Operators.cpp`:
- the table scan `TableIterator`;
- the ordered range scan `IndexScan`;
- the filter `Select`;
- the column subset `Project`;
- the equi-join `NestedLoopsJoin`, which restarts its right child;
- the blocking `Sort`;
- the adjacent-duplicate filter `Unique`.

Each iterator is an immutable state record. `open`, `next` and `close` are functions or methods on it. Every child is a `Stream`, which replays a finite sequence of rows.

Each state has a `Pending()` sequence: the rows the coming `next()` calls will hand out, up to `NULL`. Every `next` is proved to hand out the head of `Pending()` and to leave the rest pending. Each `...Run` method drives `open()` and then `next()` until `NULL`. It is proved to produce a pure specification:
- a filter for `Select`;
- a map for `Project`;
- a left-major comprehension for the join;
- a sorted permutation for `Sort`;
- adjacent deduplication for `Unique`.

The second part is the whole-table store and algebra of `RelationalAlgebra/`:
- `Row`, a value list bounded by its table's columns;
- `Table`, a name, distinct columns and a set of rows;
- the operations `onion`, `intersect`, `diff`, `select`, `project`, `rename`, `product` and `join`, with their helpers.

Exceptions become `Err` values of `Results.Result`. Result tables are plain values, and the caller supplies their name. Rows are modelled as sets of value sequences.

Modules, one per file:
- `Results` (results.dfy)
- `Seqs` (seqs.dfy)
- `Rows` (row.dfy)
- `Tables` (table.dfy)
- `Algebra` (algebra.dfy)
- `Orders` (orders.dfy)
- `Streams` (streams.dfy)
- `Selectors` (selectors.dfy)
- `SelectIterator` (select.dfy)
- `ProjectIterator` (project.dfy)
- `JoinIterator` (join.dfy)
- `SortIterator` (sort.dfy)
- `UniqueIterator` (unique.dfy)

Some behaviours of the source that a reader might not expect, all modelled as the source has them:
- **`Sort::open`** drains its child and leaves it open; `SortOpen` leaves the child exhausted but not closed.
- **A second `open()`** is modelled as well: `Sort` appends the child's rows to whatever its buffer still holds, and `Unique` starts a fresh snapshot.
- **`Row::at`** uses an unsigned guard that lets every index through on an empty row (see Findings).
- **`Unique`** treats an empty snapshot as "no row read yet", so rows with no columns are never dropped.

## Model

| member | source | states |
|---|---|---|
| Rows.NewRow | RelationalAlgebra/Row.cpp:67-69 | a new row belongs to the given table's columns and holds no value: size 0, data empty |
| Rows.Size | RelationalAlgebra/Row.cpp:62-65 | the size of a well-formed row never exceeds its table's column count |
| Rows.Data | RelationalAlgebra/Row.cpp:28-31 | `data()` has exactly `size()` values |
| Rows.Append | RelationalAlgebra/Row.cpp:52-60 | succeeds iff size < column count, and then adds the value at the end and keeps the schema; otherwise the row is full (the error); the result stays well-formed |
| Rows.AppendAll | RelationalAlgebra/RelationalAlgebra.cpp:56-59 | appending a list succeeds iff it fits in the remaining columns, and the data becomes the old data followed by the list |
| Rows.AtGuardAsWritten | RelationalAlgebra/Row.cpp:44-50 | the unsigned guard `i <= size()-1` admits exactly `i < size` on a non-empty row, and admits every index on an empty row |
| Rows.At | RelationalAlgebra/Row.cpp:44-50 | the intended `at(i)`: the value at position i iff i < size, otherwise a no-such-position error, the empty row included |
| Rows.Value | RelationalAlgebra/Row.cpp:33-42 | succeeds iff the column is in the schema, and then (distinct columns) gives the value at the column's position; otherwise a no-such-column error |
| Rows.Equal | RelationalAlgebra/Row.cpp:4-16 | true iff the two rows' tables have identical column-name sequences; the values never matter |
| Rows.NotEqual | RelationalAlgebra/Row.cpp:18-21 | true iff the column-name sequences differ, the negation of `==` |
| Tables.MakeTable | RelationalAlgebra/Table.cpp:72-85 | succeeds iff the columns are non-empty and distinct; the error says which check failed; the table is well-formed, empty, and has the given name and columns |
| Tables.Add | RelationalAlgebra/Table.cpp:22-41 | too many values and too few values are distinct errors; otherwise the row set gains the row, the answer is true iff the row was new, and name, columns and well-formedness are kept |
| Tables.Remove | RelationalAlgebra/Table.cpp:43-59 | an arity mismatch is an error; otherwise the row set loses the row, the answer is true iff it was present, and name and columns are kept |
| Tables.Has | RelationalAlgebra/Table.cpp:61-70 | an arity mismatch is an error; otherwise the answer is set membership |
| Tables.AddPresentIsNoOp | RelationalAlgebra/Table.cpp:34-40 | adding a row already present answers false and returns the table unchanged |
| Tables.AddThenRemove | RelationalAlgebra/Table.cpp:22-70 | adding a new row answers true, `has` then sees it, and removing it gives back the original table with answer true |
| Algebra.DisjointColumnNames | RelationalAlgebra/RelationalAlgebra.cpp:31-40 | true iff no column name of r is a column name of s |
| Algebra.AddRow | RelationalAlgebra/RelationalAlgebra.cpp:52-70 | too many values fail in `append` (row full) and too few fail in `add`; a row of the right width behaves exactly as `Table::add` |
| Algebra.Onion | RelationalAlgebra/RelationalAlgebra.cpp:72-87 | fails iff the column counts differ, whatever the names; otherwise a well-formed table with r's columns whose rows are rows(r) ∪ rows(s) |
| Algebra.Intersect | RelationalAlgebra/RelationalAlgebra.cpp:89-104 | fails iff the column counts differ; otherwise a row is in the result iff it is in both r and s |
| Algebra.Diff | RelationalAlgebra/RelationalAlgebra.cpp:106-121 | fails iff the column counts differ; otherwise a row is in the result iff it is in r and not in s, so together with `Intersect` it splits rows(r) |
| Algebra.Select | RelationalAlgebra/RelationalAlgebra.cpp:187-195 | r's columns; a row is in the result iff it is a row of r that the predicate accepts |
| Algebra.RenameColumnsAsWritten | RelationalAlgebra/RelationalAlgebra.cpp:153-179 | the column computation as written: the count check, the repeated-key check, then the entries applied one after another to the columns as renamed so far (stated through Algebra.RenameSwapDiffers and Algebra.RenameInTurnAgrees) |
| Algebra.RenameColumns | RelationalAlgebra/RelationalAlgebra.cpp:153-179 | succeeds iff the map has as many entries as there are columns, no repeated key, and every key is a column; errors in that order; otherwise each column is replaced in place by its mapped name, and unmapped columns stay |
| Algebra.RenameSwapDiffers | RelationalAlgebra/RelationalAlgebra.cpp:168-179 | on columns [a, b] the swap map {a->b, b->a} gives [a, a] as written, but [b, a] as intended |
| Algebra.RenameInTurnAgrees | RelationalAlgebra/RelationalAlgebra.cpp:168-179 | for a map with distinct keys where no new name is also a key, applying the entries in turn equals renaming all at once, and it fails iff some key is not a column |
| Algebra.AsWrittenAgreesWithoutChains | RelationalAlgebra/RelationalAlgebra.cpp:153-179 | on every map where no new name is also a key, the as-written and the intended column computations give the same columns or the same error |
| Algebra.Rename | RelationalAlgebra/RelationalAlgebra.cpp:153-185 | the errors of the column computation are passed on; otherwise it succeeds iff the renamed columns are distinct; the result holds r's rows unchanged and column i becomes its mapped name |
| Algebra.NameMapCreate | RelationalAlgebra/RelationalAlgebra.cpp:43-49 | the keys are the table's columns in order, and each maps to the table name followed by the column |
| Algebra.PrefixRename | RelationalAlgebra/RelationalAlgebra.cpp:129-130 | the corrected rename `Algebra.RenameColumns` by the table's own `namemapCreate` succeeds and gives the prefixed columns, which are distinct |
| Algebra.Product | RelationalAlgebra/RelationalAlgebra.cpp:123-151 | fails with a not-disjoint error when a name is shared; otherwise it succeeds iff the prefixed names are distinct; columns are r's prefixed by r's name followed by s's prefixed by s's name; rows are a ++ b for every a in r and b in s |
| Algebra.ProductColumnsAsWritten | RelationalAlgebra/RelationalAlgebra.cpp:123-137 | the column computation of `product` as written: the disjointness error first; a success has one distinct name per input column (stated through Algebra.ProductChainedPrefixFails and Algebra.ProductAsWrittenAgrees) |
| Algebra.ProductChainedPrefixFails | RelationalAlgebra/RelationalAlgebra.cpp:129-130 | table x with columns [a, xa]: the in-turn rename by `namemapCreate` gives [xxa, xxa], so `product` with table y of columns [b] throws as written, while the intended columns [xa, xxa, yb] are distinct |
| Algebra.ProductAsWrittenAgrees | RelationalAlgebra/RelationalAlgebra.cpp:123-137 | on tables where no prefixed name is also a column of the same table, `product` as written gives exactly the columns and errors that Algebra.Product promises |
| Algebra.ProjectValues | RelationalAlgebra/RelationalAlgebra.cpp:217-221 | the per-row `value` loop succeeds iff every requested name is a column, and gives the row's values at those names in request order |
| Algebra.Project | RelationalAlgebra/RelationalAlgebra.cpp:197-225 | an empty request, a missing name and a repeated name are distinct errors; otherwise the columns are the request and the rows are r's rows cut down to the requested columns in requested order |
| Algebra.SplitColumns | RelationalAlgebra/RelationalAlgebra.cpp:234-246 | splits s's columns, in s's order, into those r also has and those r lacks |
| Algebra.AllSame | RelationalAlgebra/RelationalAlgebra.cpp:264-271 | the comparison loop answers true iff the two rows agree on every common column |
| Algebra.SameValue | RelationalAlgebra/RelationalAlgebra.cpp:265 | `value(c)` of the two rows compares the values at c's position in each table |
| Algebra.JoinPair | RelationalAlgebra/RelationalAlgebra.cpp:262-280 | one pair adds its joined row (r's row followed by s's values at the columns r lacks) exactly when the two agree |
| Algebra.Join | RelationalAlgebra/RelationalAlgebra.cpp:227-283 | fails iff the tables share no column name; otherwise the columns are r's followed by the columns of s that r lacks, and the rows are the joined rows of all agreeing pairs |
| Streams.TableOpen | QueryIterator/Operators.cpp:22-26 | after `open()` the whole container, in container order, is pending |
| Streams.TableNext | QueryIterator/Operators.cpp:28-36 | hands out the first pending row and leaves the rest pending; `NULL` iff nothing is pending, and then the state is unchanged |
| Streams.TableClose | QueryIterator/Operators.cpp:38-41 | after `close()` nothing is pending |
| Streams.TableScanAll | QueryIterator/Operators.cpp:22-41 | `next()` until `NULL` yields exactly the pending rows, each once and in order, and leaves nothing pending, so later calls answer `NULL` |
| Streams.NewIndexScan | QueryIterator/Operators.cpp:79-83 | a missing high bound makes the high bound equal the low bound |
| Streams.LowerBound | QueryIterator/Operators.cpp:59 | `lower_bound(key)`: every entry before it is below the key, and the entry at it is not |
| Streams.UpperBound | QueryIterator/Operators.cpp:60 | `upper_bound(key)`: no entry before it is above the key, and the entry at it is |
| Streams.IndexOpen | QueryIterator/Operators.cpp:57-61 | after `open()` the pending rows are the entries from `lower_bound(lo)` up to but excluding `upper_bound(hi)`, in index order |
| Streams.IndexNext | QueryIterator/Operators.cpp:63-72 | hands out the first pending entry's row and leaves the rest pending; `NULL` iff nothing is pending |
| Streams.IndexClose | QueryIterator/Operators.cpp:74-77 | after `close()` nothing is pending |
| Streams.IndexScanAll | QueryIterator/Operators.cpp:57-77 | `next()` until `NULL` yields exactly the pending rows in order |
| Streams.IndexRangeExact | QueryIterator/Operators.cpp:57-61 | on an ordered index, a position is scanned iff its key lies in [lo, hi] |
| Selectors.NewSelector | QueryIterator/Operators.cpp:238-249 | the selector keeps the chosen positions in order, and the unselected positions are the rest of [0, arity) |
| Selectors.UnselectedCount | QueryIterator/Operators.cpp:172-175 | with distinct chosen positions, `n_unselected()` = arity − `n_selected()` |
| SelectIterator.SelectOpen | QueryIterator/Operators.cpp:94-97 | after `open()` the child's rows the predicate accepts are pending, in child order |
| SelectIterator.SelectNext | QueryIterator/Operators.cpp:99-107 | hands out the next accepted row, which passes the predicate and has the child's arity; no accepted row is skipped; `NULL` only once no accepted row is left |
| SelectIterator.SelectClose | QueryIterator/Operators.cpp:109-112 | after `close()` nothing is pending |
| SelectIterator.SelectRun | QueryIterator/Operators.cpp:94-107 | open then next until `NULL` yields the child filtered by the predicate in order; a row is output iff it is a child row the predicate accepts |
| ProjectIterator.NewProject | QueryIterator/Operators.cpp:158-161 | the selector is built over the child's columns with the given positions |
| ProjectIterator.ProjectOpen | QueryIterator/Operators.cpp:134-137 | after `open()` every child row, projected, is pending |
| ProjectIterator.ProjectClose | QueryIterator/Operators.cpp:153-156 | after `close()` nothing is pending |
| ProjectIterator.ProjectRow | QueryIterator/Operators.cpp:144-147 | the built row has `n_selected()` values, and the i-th is the input's value at `selected(i)` |
| ProjectIterator.ProjectNext | QueryIterator/Operators.cpp:129-151 | `NULL` iff the child is exhausted; otherwise a row of `n_columns()` values, the projection of the next child row, consuming exactly one child row |
| ProjectIterator.ProjectedRows | QueryIterator/Operators.cpp:139-151 | the projected sequence has one row per input row, each the input row at the selected positions |
| ProjectIterator.ProjectRun | QueryIterator/Operators.cpp:129-151 | open then next until `NULL` yields one row per child row, in order, with `n_columns()` values, the i-th equal to the child row's value at `selected(i)` |
| JoinIterator.JoinFromSpec | QueryIterator/Operators.cpp:185-229 | the order the iterator walks the pairs (the rest of the right side, then each later left row against a restarted right side) is the left-major, right-minor join |
| JoinIterator.JoinSpecMembers | QueryIterator/Operators.cpp:185-229 | a row is in the join iff it is l ++ r[unselected] for some left row l and right row r that agree on every join-column pair |
| JoinIterator.NewJoin | QueryIterator/Operators.cpp:238-249 | the constructor's assertion demands equal left and right join-column counts; the two selectors are compatible and range over their children's columns, keeping the given positions; no left row is current |
| JoinIterator.JoinOpen | QueryIterator/Operators.cpp:177-183 | after `open()` the whole left-major join of the two children is pending |
| JoinIterator.JoinClose | QueryIterator/Operators.cpp:231-236 | after `close()` nothing is pending |
| JoinIterator.Fetch | QueryIterator/Operators.cpp:192-212 | one fetch step takes the next right row or, once the right side has run out, advances the left row and restarts the right side; it loses no pending output and always reads more input |
| JoinIterator.SameOnJoinColumns | QueryIterator/Operators.cpp:215-218 | true iff the left and right rows agree on every join-column pair |
| JoinIterator.CombineRows | QueryIterator/Operators.cpp:220-222 | the output row is the left row followed by the right row's values at the unselected positions, in order |
| JoinIterator.JoinNext | QueryIterator/Operators.cpp:185-229 | hands out exactly the next row of the pending join, of width left arity + unselected right columns; `NULL` only once nothing is pending, and after that nothing stays pending |
| JoinIterator.JoinRowWidth | QueryIterator/Operators.cpp:172-175 | with distinct right join columns, the joined row width is `n_columns()` = left arity + right arity − join columns |
| JoinIterator.JoinRun | QueryIterator/Operators.cpp:177-229 | open then next until `NULL` yields the left-major join of the two children, which is empty when either child is empty |
| SortIterator.SortBy | QueryIterator/Operators.cpp:278-279 | the result is a permutation of the input, ordered by the comparator |
| SortIterator.NewSort | QueryIterator/Operators.cpp:299-302 | a new `Sort` has an empty buffer, so nothing is pending |
| SortIterator.SortOpen | QueryIterator/Operators.cpp:267-282 | `open()` drains the child completely; the pending rows are a permutation of the old buffer plus all child rows, sorted by the comparator |
| SortIterator.SortNext | QueryIterator/Operators.cpp:284-290 | hands out the row under the cursor and advances; `NULL` iff the buffer is used up; the row has the child's arity |
| SortIterator.SortClose | QueryIterator/Operators.cpp:292-297 | `close()` empties the buffer; nothing is pending |
| SortIterator.SortRun | QueryIterator/Operators.cpp:267-290 | on a new or closed `Sort`, open then next until `NULL` yields every child row exactly as often as the child produced it, in comparator order |
| UniqueIterator.UniqueOpen | QueryIterator/Operators.cpp:318-322 | after `open()` the snapshot is empty, and the whole child is pending in its deduplicated form |
| UniqueIterator.UniqueClose | QueryIterator/Operators.cpp:350-354 | after `close()` nothing is pending |
| UniqueIterator.RowsDiffer | QueryIterator/Operators.cpp:338-343 | the column loop finds a difference iff the row differs from the snapshot |
| UniqueIterator.UniqueNext | QueryIterator/Operators.cpp:324-348 | hands out the next pending row (one differing from the row read before it), of the child's arity; `NULL` only once nothing is pending and the child is exhausted |
| UniqueIterator.UniqueIsDedupe | QueryIterator/Operators.cpp:324-348 | on rows with at least one column, the iterator's output equals the reference deduplication: the first row is kept, and a later row is kept iff it differs from the row just before it |
| UniqueIterator.DedupeLast | QueryIterator/Operators.cpp:324-348 | the deduplication of a non-empty input ends with the input's last row |
| UniqueIterator.DedupeNoAdjacent | QueryIterator/Operators.cpp:324-348 | no two adjacent rows of the deduplicated output are equal, for every input |
| UniqueIterator.DedupeKeepsChanges | QueryIterator/Operators.cpp:324-348 | for every input, the first row and every row that differs from the row just before it appear in the output |
| UniqueIterator.NonAdjacentKept | QueryIterator/Operators.cpp:324-348 | duplicates that are not adjacent are all kept: [a, b, a] stays [a, b, a] |
| UniqueIterator.UniqueKeepsEmptyRows | QueryIterator/Operators.cpp:333-336 | rows with no columns are never dropped, because an empty snapshot always means "first row" |
| UniqueIterator.UniqueRun | QueryIterator/Operators.cpp:318-348 | open then next until `NULL` yields the child's rows with adjacent duplicates removed, in child order |

## Left out

- Scope: the `Database` catalogue (`new_table`, `new_table_name`) is not part of this model. Result tables are values, and the caller passes their name.
- `Database::new_table` is assumed to build its table through the `Table` constructor (RelationalAlgebra/Table.cpp:72-85), so that an empty or repeated column list throws there. The `DuplicateColumns` outcomes of Algebra.Rename, Algebra.Product and Algebra.Project rest on this assumption, since the source of `new_table` is not part of this model.
- Algebra.Rename: uses the corrected column computation Algebra.RenameColumns, which renames every column at once; the source applies the entries in turn (see Findings), and the two agree only on maps where no new name is also a key (Algebra.AsWrittenAgreesWithoutChains).
- Algebra.PrefixRename: states the corrected rename, not the source's. As written, the rename at RelationalAlgebra/RelationalAlgebra.cpp:129-130 fails when a prefixed name is also a column of the same table (Algebra.ProductChainedPrefixFails); it agrees with the corrected one under `NoChain` (Algebra.ProductAsWrittenAgrees).
- Algebra.Product: uses the corrected rename, so it succeeds on tables such as x with columns [a, xa], where the source throws (see Findings); the two agree when no prefixed name is also a column of the same table (Algebra.ProductAsWrittenAgrees).
- Memory management is not modelled: `new`/`delete`, `Row::reclaim`, destructors and ownership. The same goes for the shared, reused `joinResult` buffer, the left row never reclaimed on advance, and `Sort::close` clearing its buffer without reclaiming it. Rows are immutable values.
- The bodies of `RowCompare`, `Index`, `ColumnSelector` and `ColumnNames::position` are not part of this model. The comparator is an abstract strict weak order. `RowCompare::operator()` is declared at QueryIterator/RowCompare.h:13 to return `int`, and `std::sort` reads that result as a boolean "less than"; the model assumes that boolean is a strict weak order. A three-way result (−1/0/1) would make every nonzero value mean "less" and break this assumption. An index is a key-ordered sequence of (key, row) entries with abstract `lower_bound`/`upper_bound`. A selector holds its chosen positions in order and the rest of `[0, arity)` in ascending order.
- The QueryIterator-side `Row` class is not part of this model. Iterator rows are value sequences (`Streams.Tuple`).
- `RowPredicate` is any pure function of a row.
- Iteration order of a table's `RowSet` is not modelled. The algebra loops take rows in an arbitrary order, and the results are sets, so they do not depend on it. `TableIterator` takes the container's order as a given sequence.
- `NameMap` is taken as a sequence of entries in iteration order; its definition is not part of this model. Repeated keys, which a map cannot hold, are allowed in the model and rejected by the repeated-key check. Algebra.NameMapCreate lists its entries in column order and stands for the map's iteration order. If `NameMap` is a `std::map`, that order is key order, and it matches column order only when the columns are sorted. The as-written halves Algebra.RenameColumnsAsWritten and Algebra.ProductColumnsAsWritten depend on this order. The examples in Algebra.RenameSwapDiffers and Algebra.ProductChainedPrefixFails use sorted keys, so they hold under key order too.
- Algebra.Select, Algebra.Project and the other algebra operations: the `TableException` that `addRow` could throw for a row of the wrong width cannot occur on a well-formed input, so the model requires well-formed input tables.
- Streams.IndexOpen: requires `lower_bound(lo)` not to lie past `upper_bound(hi)`. The source walks from the first to the second and runs past the end otherwise. Streams.BoundsOrdered shows that an ordered index with lo not above hi meets this.
- SortIterator.SortRun: promises only the sorted-permutation property, because `std::sort` is not stable. Which of the equally ordered rows comes first is left open.
- SortIterator.SortClose: the source leaves `_sorted_iterator` dangling after `clear()`. The model resets the cursor, so a `next()` after `close()` answers `NULL` rather than being undefined.
- JoinIterator.JoinRowWidth: states the width `n_columns()` only when the right join positions are distinct. With a repeated right position, `n_columns()` undercounts the joined row, and the model does not state that case.
- JoinIterator.NewJoin, ProjectIterator.NewProject and Selectors.NewSelector: require every position to name a column of the child. Out-of-range positions make the source's `at` throw deep inside `next()`, and that is not modelled.
- Rows.Value: requires the row to hold a value at the column's position. The source reads `_values[pos]` with no bounds test, so a short row is undefined behaviour there.
- ProjectIterator.ProjectNext: states the per-value contents of the projected row through `Pending()` and ProjectIterator.ProjectRun, rather than index by index for each call.
- `n_columns()` of each iterator (TableColumns, IndexColumns, SelectColumns, ProjectColumns, JoinColumns, SortColumns, UniqueColumns) is a plain function without a contract of its own. Its properties are stated in the `next` rows above and in JoinIterator.JoinRowWidth and Selectors.UnselectedCount.
- The C++ `unsigned` result of `n_columns()` is not modelled: JoinColumns is an unbounded integer.
- Rows.AtGuardAsWritten: the `unsigned long` size and `unsigned` index are bounded by 2^64 and 2^32; the rest of the model uses unbounded integers.
- The commented-out name comparison in `unionCompatible` and the unreachable `return`s after `throw` are not modelled.

## Findings

| source | as written | input that shows it | evidently intended | confidence | as-written member | corrected member |
|---|---|---|---|---|---|---|
| RelationalAlgebra/RelationalAlgebra.cpp:168-179 | `rename` applies the map's entries one after another to the columns as already renamed, so a later entry can rename a column an earlier entry produced | columns [a, b] with the map {a->b, b->a} give [a, a]; the constructor then throws on the duplicate | every column is renamed at once by its own entry, giving [b, a] | not executed | Algebra.RenameColumnsAsWritten (with Algebra.RenameSwapDiffers) | Algebra.RenameColumns (with Algebra.AsWrittenAgreesWithoutChains for the maps where the two agree) |
| RelationalAlgebra/RelationalAlgebra.cpp:129-130 | `product` prefixes each table's columns through the in-turn `rename`, so a column that is the table's name followed by another of its columns is prefixed twice | table x with columns [a, xa] becomes [xa, xa] and then [xxa, xxa]; the renamed table's constructor throws on the duplicate | every column gets its table's name as prefix exactly once: [xa, xxa], and with table y of columns [b] the product columns [xa, xxa, yb] | not executed | Algebra.ProductColumnsAsWritten (with Algebra.ProductChainedPrefixFails) | Algebra.Product (with Algebra.ProductAsWrittenAgrees for the tables where the two agree) |
| RelationalAlgebra/Row.cpp:44-50 | `at(i)` tests `i <= _values.size() - 1` on unsigned operands, which wraps to 2^64 − 1 on an empty row | `at(0)` on a freshly constructed row passes the test and reads `_values[0]` of an empty vector | throw for every i when the row is empty | not executed | Rows.AtGuardAsWritten | Rows.At |
