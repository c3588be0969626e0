/**
 * The table a query transforms (a pandas DataFrame) and the row and column operations
 * the query interpreter applies to it: `dropna`, `drop_duplicates`, `query`, `rename`
 * and `sort_values`.
 */
module Tables {
  import opened Wrappers
  import opened Values
  import opened Seqs
  import opened Sorting
  import Text

  type Row = seq<Cell>

  /** Column labels in order, and rows of cells in order. */
  datatype Table = Table(columns: seq<string>, rows: seq<Row>)

  /** Every row has one cell per column. */
  predicate WellFormed(t: Table) {
    forall r :: r in t.rows ==> |r| == |t.columns|
  }

  /** The row has no missing cell. */
  predicate Complete(r: Row) {
    forall k :: 0 <= k < |r| ==> r[k].Some?
  }

  /**
   * `df.dropna()`: the rows without a missing cell, in their original order.
   * Columns are untouched.
   */
  function DropMissing(t: Table): (u: Table)
    ensures u.columns == t.columns
    ensures forall r :: r in u.rows <==> r in t.rows && Complete(r)
    ensures IsSubseq(u.rows, t.rows)
    ensures |u.rows| <= |t.rows|
    ensures WellFormed(t) ==> WellFormed(u)
  {
    Table(t.columns, Filter(t.rows, Complete))
  }

  /**
   * `dropna` keeps every complete row as often as it occurred and drops every other row:
   * together with the order-preserving subsequence above this pins down the result.
   */
  lemma DropMissingExact(t: Table)
    ensures forall r :: multiset(DropMissing(t).rows)[r] == if Complete(r) then multiset(t.rows)[r] else 0
  {
    FilterMultiset(t.rows, Complete);
  }

  /** Dropping missing values twice is dropping them once. */
  lemma DropMissingIdempotent(t: Table)
    ensures DropMissing(DropMissing(t)) == DropMissing(t)
  {
    FilterIdempotent(t.rows, Complete);
  }

  /**
   * `df.drop_duplicates()`: the first occurrence of every distinct row (all cells equal,
   * two missing cells counting as equal), in the original order. An empty frame, which
   * for pandas includes one with rows but no columns, is returned as it is.
   */
  function DropDuplicates(t: Table): (u: Table)
    ensures u.columns == t.columns
    ensures |t.columns| == 0 ==> u == t
    ensures |t.columns| > 0 ==> Distinct(u.rows)
    ensures forall r :: r in u.rows <==> r in t.rows
    ensures IsSubseq(u.rows, t.rows)
    ensures |u.rows| <= |t.rows|
    ensures WellFormed(t) ==> WellFormed(u)
  {
    if |t.columns| == 0 then
      SubseqOfItself(t.rows);
      t
    else
      Table(t.columns, Dedup(t.rows))
  }

  /**
   * On a table with columns the kept rows are exactly the rows that do not repeat an
   * earlier row.
   */
  lemma DropDuplicatesKeepsFirst(t: Table)
    ensures |t.columns| > 0 ==> DropDuplicates(t).rows == FirstOccurrences(t.rows)
  {
    DedupIsFirstOccurrences(t.rows);
  }

  /** Dropping duplicates twice is dropping them once. */
  lemma DropDuplicatesIdempotent(t: Table)
    ensures DropDuplicates(DropDuplicates(t)) == DropDuplicates(t)
  {
    DedupIdempotent(t.rows);
  }

  /**
   * `df.query(...)` once the condition has been evaluated to a row predicate: every
   * selected row is kept as often as it occurred, every other row is dropped, in order.
   */
  function KeepRows(t: Table, keep: Row -> bool): (u: Table)
    ensures u.columns == t.columns
    ensures forall r :: multiset(u.rows)[r] == if keep(r) then multiset(t.rows)[r] else 0
    ensures forall r :: r in u.rows <==> r in t.rows && keep(r)
    ensures IsSubseq(u.rows, t.rows)
    ensures |u.rows| <= |t.rows|
    ensures WellFormed(t) ==> WellFormed(u)
  {
    FilterMultiset(t.rows, keep);
    Table(t.columns, Filter(t.rows, keep))
  }

  /**
   * The first column whose lower-cased label equals the lower-cased `name`
   * (the case-insensitive column lookup of a rename).
   */
  function FindColumnIgnoringCase(columns: seq<string>, name: string): (r: Option<nat>)
    ensures r.Some? ==> r.value < |columns| && Text.Lower(columns[r.value]) == Text.Lower(name)
    ensures r.Some? ==> forall k :: 0 <= k < r.value ==> Text.Lower(columns[k]) != Text.Lower(name)
    ensures r.None? ==> forall k :: 0 <= k < |columns| ==> Text.Lower(columns[k]) != Text.Lower(name)
  {
    if |columns| == 0 then None
    else if Text.Lower(columns[0]) == Text.Lower(name) then Some(0)
    else match FindColumnIgnoringCase(columns[1..], name)
      case None => None
      case Some(k) => Some(k + 1)
  }

  /**
   * `df.rename(columns={old: new})`: every column labelled exactly `old` is relabelled
   * `new`; all other labels, the column order and the rows are untouched.
   */
  function RenameColumn(t: Table, oldName: string, newName: string): (u: Table)
    ensures u.rows == t.rows
    ensures |u.columns| == |t.columns|
    ensures forall k :: 0 <= k < |t.columns| && t.columns[k] != oldName ==> u.columns[k] == t.columns[k]
    ensures forall k :: 0 <= k < |t.columns| && t.columns[k] == oldName ==> u.columns[k] == newName
    ensures oldName != newName ==> oldName !in u.columns
    ensures WellFormed(t) ==> WellFormed(u)
  {
    Table(seq(|t.columns|, k requires 0 <= k < |t.columns| =>
      if t.columns[k] == oldName then newName else t.columns[k]), t.rows)
  }

  /** Renaming to a label not already in use and renaming back restores the table. */
  lemma RenameRoundTrip(t: Table, oldName: string, newName: string)
    requires newName !in t.columns
    ensures RenameColumn(RenameColumn(t, oldName, newName), newName, oldName) == t
  {
    var u := RenameColumn(RenameColumn(t, oldName, newName), newName, oldName);
    assert u.columns == t.columns;
  }

  /** The positions whose label is exactly `name` (pandas' label lookup). */
  function ColumnPositions(columns: seq<string>, name: string): (ps: seq<nat>)
    ensures forall k: nat :: k in ps <==> k < |columns| && columns[k] == name
    ensures forall a, b :: 0 <= a < b < |ps| ==> ps[a] < ps[b]
  {
    if |columns| == 0 then []
    else
      var rest := ColumnPositions(columns[..|columns| - 1], name);
      assert forall a :: 0 <= a < |rest| ==> rest[a] in rest;
      if columns[|columns| - 1] == name then rest + [|columns| - 1] else rest
  }

  /** The cell of column `i` in row `r` (missing when the row is too short). */
  function CellAt(i: nat): Row -> Cell {
    r => if i < |r| then r[i] else None
  }

  /** All values present in column `i` are numbers, or all are strings: Python can order them. */
  predicate Orderable(t: Table, i: nat) {
    || (forall r: Row :: r in t.rows && i < |r| && r[i].Some? ==> r[i].value.Num?)
    || (forall r: Row :: r in t.rows && i < |r| && r[i].Some? ==> r[i].value.Text?)
  }

  /**
   * `df.sort_values(by=column i, ascending)`: a stable sort of the rows by their cell
   * in column `i`, missing cells last.
   */
  function SortByColumn(t: Table, i: nat, ascending: bool): (u: Table)
    requires WellFormed(t) && i < |t.columns|
    ensures u.columns == t.columns
    ensures WellFormed(u)
    ensures multiset(u.rows) == multiset(t.rows)
    ensures forall a, b :: 0 <= a < b < |u.rows| ==> CellOrdered(u.rows[a][i], u.rows[b][i], ascending)
    ensures forall c :: WithKey(u.rows, CellAt(i), c) == WithKey(t.rows, CellAt(i), c)
  {
    var rows := SortBy(t.rows, CellAt(i), ascending);
    SortedColumn(t, rows, i, ascending);
    Table(t.columns, rows)
  }

  lemma SortedColumn(t: Table, rows: seq<Row>, i: nat, ascending: bool)
    requires WellFormed(t) && i < |t.columns|
    requires multiset(rows) == multiset(t.rows)
    requires SortedBy(rows, CellAt(i), ascending)
    ensures forall r :: r in rows ==> |r| == |t.columns|
    ensures forall a, b :: 0 <= a < b < |rows| ==> CellOrdered(rows[a][i], rows[b][i], ascending)
  {
    forall r | r in rows ensures |r| == |t.columns| {
      assert r in multiset(rows);
    }
    forall a, b | 0 <= a < b < |rows|
      ensures CellOrdered(rows[a][i], rows[b][i], ascending)
    {
      assert rows[a] in rows && rows[b] in rows;
      assert CellAt(i)(rows[a]) == rows[a][i];
      assert CellAt(i)(rows[b]) == rows[b][i];
    }
  }
}
