/**
 * `df.groupby(column).sum().reset_index()` and `.mean()`: one output row per distinct
 * value present in the grouping column, in ascending key order, holding the key and,
 * for every other column, the sum (or mean) of that group's numbers.
 */
module Aggregation {
  import opened Wrappers
  import opened Values
  import opened Seqs
  import opened Sorting
  import opened Tables

  datatype How = Sum | Mean

  /** Sum of a sequence of numbers. */
  function Total(xs: seq<real>): real {
    if |xs| == 0 then 0.0 else xs[0] + Total(xs[1..])
  }

  lemma {:induction false} TotalConcat(a: seq<real>, b: seq<real>)
    ensures Total(a + b) == Total(a) + Total(b)
  {
    if |a| == 0 {
      assert a + b == b;
    } else {
      assert (a + b)[1..] == a[1..] + b;
      TotalConcat(a[1..], b);
    }
  }

  /** Some row holds `v` in column `i`. */
  predicate KeyIn(rows: seq<Row>, i: nat, v: Value) {
    |rows| > 0 && ((i < |rows[0]| && rows[0][i] == Some(v)) || KeyIn(rows[1..], i, v))
  }

  /** A value held in column `i` by one of the rows is a key of the rows. */
  lemma {:induction false} KeyInRow(rows: seq<Row>, i: nat, r: Row)
    requires r in rows && i < |r| && r[i].Some?
    ensures KeyIn(rows, i, r[i].value)
  {
    if rows[0] != r {
      assert r in rows[1..];
      KeyInRow(rows[1..], i, r);
    }
  }

  /** A key of the rows is held in column `i` by one of them. */
  lemma {:induction false} KeyInWitness(rows: seq<Row>, i: nat, v: Value) returns (r: Row)
    requires KeyIn(rows, i, v)
    ensures r in rows && i < |r| && r[i] == Some(v)
  {
    if i < |rows[0]| && rows[0][i] == Some(v) {
      r := rows[0];
    } else {
      r := KeyInWitness(rows[1..], i, v);
      assert r in rows[1..];
    }
  }

  /** The values present in column `i`, row by row (missing keys are dropped, as `groupby` does). */
  function PresentKeys(rows: seq<Row>, i: nat): (ks: seq<Value>)
    ensures |ks| <= |rows|
    ensures forall v :: v in ks <==> KeyIn(rows, i, v)
  {
    if |rows| == 0 then []
    else
      var rest := PresentKeys(rows[1..], i);
      if i < |rows[0]| && rows[0][i].Some? then [rows[0][i].value] + rest else rest
  }

  /** A value as a present cell: the sort key of a group key. */
  function AsCell(v: Value): Cell {
    Some(v)
  }

  /**
   * The group keys: every value present in column `i` exactly once, in strictly
   * ascending order.
   */
  function GroupKeys(rows: seq<Row>, i: nat): (ks: seq<Value>)
    ensures |ks| <= |rows|
    ensures forall a, b :: 0 <= a < b < |ks| ==> Le(ks[a], ks[b]) && ks[a] != ks[b]
    ensures forall v :: v in ks <==> v in PresentKeys(rows, i)
  {
    var present := PresentKeys(rows, i);
    var sorted := SortBy(present, AsCell, true);
    SameElements(present, sorted);
    var ks := Dedup(sorted);
    SubseqSorted(ks, sorted, AsCell, true);
    SortedKeysAscend(ks);
    ks
  }

  /** A permutation has the same length and the same members. */
  lemma SameElements<T>(s: seq<T>, r: seq<T>)
    requires multiset(r) == multiset(s)
    ensures |r| == |s|
    ensures forall v :: v in r <==> v in s
  {
    assert |r| == |multiset(r)|;
    forall v ensures v in r <==> v in s {
      assert v in r <==> v in multiset(r);
    }
  }

  /** Distinct keys sorted ascending are strictly ascending. */
  lemma SortedKeysAscend(ks: seq<Value>)
    requires SortedBy(ks, AsCell, true) && Distinct(ks)
    ensures forall a, b :: 0 <= a < b < |ks| ==> Le(ks[a], ks[b]) && ks[a] != ks[b]
  {
    forall a, b | 0 <= a < b < |ks| ensures Le(ks[a], ks[b]) {
      assert CellOrdered(AsCell(ks[a]), AsCell(ks[b]), true);
    }
  }

  /** The number in column `j` of row `r`, if `r` belongs to group `k` of column `i`. */
  function Contribution(r: Row, i: nat, k: Value, j: nat): seq<real> {
    if i < |r| && j < |r| && r[i] == Some(k) && r[j].Some? && r[j].value.Num? then [r[j].value.x] else []
  }

  /** The numbers of column `j` in group `k` of column `i`, row by row; missing cells are skipped. */
  function GroupValues(rows: seq<Row>, i: nat, k: Value, j: nat): seq<real> {
    if |rows| == 0 then [] else Contribution(rows[0], i, k, j) + GroupValues(rows[1..], i, k, j)
  }

  /** The number in column `j` of row `r`, if `r` has a key in column `i`. */
  function KeyedContribution(r: Row, i: nat, j: nat): seq<real> {
    if i < |r| && j < |r| && r[i].Some? && r[j].Some? && r[j].value.Num? then [r[j].value.x] else []
  }

  /** The numbers of column `j` in all rows that have a key in column `i`. */
  function KeyedValues(rows: seq<Row>, i: nat, j: nat): seq<real> {
    if |rows| == 0 then [] else KeyedContribution(rows[0], i, j) + KeyedValues(rows[1..], i, j)
  }

  /**
   * One aggregated cell: the group's sum (an empty group sums to 0), or its mean,
   * which is missing when the group has no number in that column.
   */
  function AggregateCell(rows: seq<Row>, i: nat, k: Value, j: nat, how: How): (c: Cell)
    ensures c.Some? ==> c.value.Num?
    ensures how == Sum ==> c == Some(Num(Total(GroupValues(rows, i, k, j))))
    ensures how == Mean ==> (c.None? <==> |GroupValues(rows, i, k, j)| == 0)
    ensures how == Mean && c.Some? ==> c.value.x * (|GroupValues(rows, i, k, j)| as real) == Total(GroupValues(rows, i, k, j))
  {
    var vals := GroupValues(rows, i, k, j);
    match how
    case Sum => Some(Num(Total(vals)))
    case Mean => if |vals| == 0 then None else Some(Num(Total(vals) / (|vals| as real)))
  }

  /** Position in the input of the `m`-th column that is not the grouping column `i`. */
  function OtherColumn(m: nat, i: nat): nat {
    if m < i then m else m + 1
  }

  /** The output row of group `k`: the key, then one aggregated cell per other column. */
  function GroupRow(t: Table, i: nat, k: Value, how: How): (r: Row)
    requires i < |t.columns|
    ensures |r| == |t.columns|
    ensures r[0] == Some(k)
    ensures forall m :: 0 <= m < |t.columns| - 1 ==> r[m + 1] == AggregateCell(t.rows, i, k, OtherColumn(m, i), how)
  {
    [Some(k)] + seq(|t.columns| - 1, m requires 0 <= m < |t.columns| - 1 =>
      AggregateCell(t.rows, i, k, OtherColumn(m, i), how))
  }

  /**
   * Group the rows by column `i` and aggregate every other column. The key column moves
   * to the front (`reset_index`), and output row `g` belongs to the `g`-th group key.
   */
  function GroupBy(t: Table, i: nat, how: How): (u: Table)
    requires WellFormed(t) && i < |t.columns|
    ensures WellFormed(u)
    ensures u.columns == [t.columns[i]] + t.columns[..i] + t.columns[i + 1..]
    ensures |u.rows| == |GroupKeys(t.rows, i)| <= |t.rows|
    ensures forall g :: 0 <= g < |u.rows| ==> u.rows[g][0] == Some(GroupKeys(t.rows, i)[g])
    ensures forall g, m :: 0 <= g < |u.rows| && 0 <= m < |t.columns| - 1 ==>
      u.rows[g][m + 1] == AggregateCell(t.rows, i, GroupKeys(t.rows, i)[g], OtherColumn(m, i), how)
  {
    var ks := GroupKeys(t.rows, i);
    Table([t.columns[i]] + t.columns[..i] + t.columns[i + 1..],
      seq(|ks|, g requires 0 <= g < |ks| => GroupRow(t, i, ks[g], how)))
  }

  /** The rows are headed by strictly ascending keys. */
  predicate KeysAscend(rows: seq<Row>) {
    forall a, b :: 0 <= a < b < |rows| && |rows[a]| > 0 && |rows[b]| > 0 ==>
      rows[a][0].Some? && rows[b][0].Some? && Le(rows[a][0].value, rows[b][0].value) && rows[a][0] != rows[b][0]
  }

  /** Every row is headed by a value present in column `i` of some input row. */
  predicate KeysFromInput(rows: seq<Row>, src: seq<Row>, i: nat) {
    forall g :: 0 <= g < |rows| ==> |rows[g]| > 0 && exists r :: r in src && i < |r| && r[i] == rows[g][0]
  }

  /** Every value present in column `i` of an input row heads one of the rows. */
  predicate KeysCoverInput(rows: seq<Row>, src: seq<Row>, i: nat) {
    forall r: Row :: r in src && i < |r| && r[i].Some? ==> exists g :: 0 <= g < |rows| && |rows[g]| > 0 && rows[g][0] == r[i]
  }

  /** The rows are headed, in order, by the group keys of column `i`. */
  predicate HeadedByKeys(rows: seq<Row>, src: seq<Row>, i: nat) {
    && |rows| == |GroupKeys(src, i)|
    && forall g :: 0 <= g < |rows| ==> |rows[g]| > 0 && rows[g][0] == Some(GroupKeys(src, i)[g])
  }

  lemma KeyedRowsAscend(src: seq<Row>, i: nat, rows: seq<Row>)
    requires HeadedByKeys(rows, src, i)
    ensures KeysAscend(rows)
  {
  }

  lemma KeyedRowsFromInput(src: seq<Row>, i: nat, rows: seq<Row>)
    requires HeadedByKeys(rows, src, i)
    ensures KeysFromInput(rows, src, i)
  {
    var ks := GroupKeys(src, i);
    forall g | 0 <= g < |rows|
      ensures exists r :: r in src && i < |r| && r[i] == rows[g][0]
    {
      assert ks[g] in PresentKeys(src, i);
      var r := KeyInWitness(src, i, ks[g]);
    }
  }

  lemma KeyedRowsCoverInput(src: seq<Row>, i: nat, rows: seq<Row>)
    requires HeadedByKeys(rows, src, i)
    ensures KeysCoverInput(rows, src, i)
  {
    var ks := GroupKeys(src, i);
    forall r: Row | r in src && i < |r| && r[i].Some?
      ensures exists g :: 0 <= g < |rows| && |rows[g]| > 0 && rows[g][0] == r[i]
    {
      KeyInRow(src, i, r);
      var g :| 0 <= g < |ks| && ks[g] == r[i].value;
      assert rows[g][0] == r[i];
    }
  }

  lemma GroupByHeaded(t: Table, i: nat, how: How, u: Table)
    requires WellFormed(t) && i < |t.columns| && u == GroupBy(t, i, how)
    ensures HeadedByKeys(u.rows, t.rows, i)
  {
  }

  /**
   * The grouped table has one row per distinct value present in the grouping column and
   * no other rows, in strictly ascending key order.
   */
  lemma GroupByOneRowPerKey(t: Table, i: nat, how: How)
    requires WellFormed(t) && i < |t.columns|
    ensures KeysAscend(GroupBy(t, i, how).rows)
    ensures KeysFromInput(GroupBy(t, i, how).rows, t.rows, i)
    ensures KeysCoverInput(GroupBy(t, i, how).rows, t.rows, i)
  {
    var u := GroupBy(t, i, how);
    GroupByHeaded(t, i, how, u);
    KeyedRowsAscend(t.rows, i, u.rows);
    KeyedRowsFromInput(t.rows, i, u.rows);
    KeyedRowsCoverInput(t.rows, i, u.rows);
  }

  /** The sum of the group totals of column `j` over the keys `ks`. */
  function SumOverKeys(ks: seq<Value>, rows: seq<Row>, i: nat, j: nat): real {
    if |ks| == 0 then 0.0 else Total(GroupValues(rows, i, ks[0], j)) + SumOverKeys(ks[1..], rows, i, j)
  }

  /** What one row adds to the group totals over the keys `ks`. */
  function RowShare(ks: seq<Value>, r: Row, i: nat, j: nat): real {
    if |ks| == 0 then 0.0 else Total(Contribution(r, i, ks[0], j)) + RowShare(ks[1..], r, i, j)
  }

  lemma {:induction false} SumOverNoRows(ks: seq<Value>, i: nat, j: nat)
    ensures SumOverKeys(ks, [], i, j) == 0.0
  {
    if |ks| > 0 {
      SumOverNoRows(ks[1..], i, j);
    }
  }

  lemma {:induction false} SumOverCons(ks: seq<Value>, r: Row, rest: seq<Row>, i: nat, j: nat)
    ensures SumOverKeys(ks, [r] + rest, i, j) == SumOverKeys(ks, rest, i, j) + RowShare(ks, r, i, j)
  {
    if |ks| > 0 {
      assert ([r] + rest)[0] == r && ([r] + rest)[1..] == rest;
      TotalConcat(Contribution(r, i, ks[0], j), GroupValues(rest, i, ks[0], j));
      SumOverCons(ks[1..], r, rest, i, j);
    }
  }

  /** With distinct keys a row counts towards at most one group: its own. */
  lemma {:induction false} RowShareSingle(ks: seq<Value>, r: Row, i: nat, j: nat)
    requires Distinct(ks)
    ensures RowShare(ks, r, i, j) ==
      if i < |r| && r[i].Some? && r[i].value in ks then Total(KeyedContribution(r, i, j)) else 0.0
  {
    if |ks| > 0 {
      assert Distinct(ks[1..]);
      RowShareSingle(ks[1..], r, i, j);
      if i < |r| && r[i] == Some(ks[0]) {
        assert ks[0] !in ks[1..];
      }
    }
  }

  /**
   * Summing the group totals over a set of distinct keys that covers every present key
   * gives the total of the column over all keyed rows: grouping loses and invents nothing.
   */
  lemma {:induction false} SumConservation(ks: seq<Value>, rows: seq<Row>, i: nat, j: nat)
    requires Distinct(ks)
    requires forall v :: v in PresentKeys(rows, i) ==> v in ks
    decreases |rows|
    ensures SumOverKeys(ks, rows, i, j) == Total(KeyedValues(rows, i, j))
  {
    if |rows| == 0 {
      SumOverNoRows(ks, i, j);
    } else {
      var r, rest := rows[0], rows[1..];
      assert rows == [r] + rest;
      forall v | v in PresentKeys(rest, i) ensures v in ks {
        assert KeyIn(rows, i, v);
      }
      SumConservation(ks, rest, i, j);
      SumOverCons(ks, r, rest, i, j);
      RowShareSingle(ks, r, i, j);
      if i < |r| && r[i].Some? {
        assert KeyIn(rows, i, r[i].value);
      }
      TotalConcat(KeyedContribution(r, i, j), KeyedValues(rest, i, j));
    }
  }

  /** The numbers in column `c` of the rows, added up; missing and text cells add nothing. */
  function ColumnTotal(rows: seq<Row>, c: nat): real {
    if |rows| == 0 then 0.0
    else
      var here := if c < |rows[0]| && rows[0][c].Some? && rows[0][c].value.Num? then rows[0][c].value.x else 0.0;
      here + ColumnTotal(rows[1..], c)
  }

  lemma {:induction false} ColumnOfGroupSums(ks: seq<Value>, rows: seq<Row>, src: seq<Row>, i: nat, j: nat, c: nat)
    requires |rows| == |ks|
    requires forall r :: r in rows ==> c < |r|
    requires forall g :: 0 <= g < |rows| ==> rows[g][c] == Some(Num(Total(GroupValues(src, i, ks[g], j))))
    decreases |ks|
    ensures ColumnTotal(rows, c) == SumOverKeys(ks, src, i, j)
  {
    if |ks| > 0 {
      ColumnOfGroupSums(ks[1..], rows[1..], src, i, j, c);
    }
  }

  /** Distinct keys covering every value present in column `i`. */
  predicate CoveringKeys(ks: seq<Value>, src: seq<Row>, i: nat) {
    Distinct(ks) && forall v :: v in PresentKeys(src, i) ==> v in ks
  }

  /**
   * The keys `ks` are distinct and cover column `i`, and row `g` holds, in column `c`,
   * the total of column `j` over group `ks[g]`.
   */
  predicate HoldsGroupTotals(rows: seq<Row>, src: seq<Row>, ks: seq<Value>, i: nat, j: nat, c: nat) {
    && CoveringKeys(ks, src, i)
    && |rows| == |ks|
    && (forall r :: r in rows ==> c < |r|)
    && forall g :: 0 <= g < |rows| ==> rows[g][c] == Some(Num(Total(GroupValues(src, i, ks[g], j))))
  }

  /** Rows holding the group totals over covering keys add up to the keyed total. */
  lemma GroupTotalsConserved(rows: seq<Row>, src: seq<Row>, ks: seq<Value>, i: nat, j: nat, c: nat)
    requires HoldsGroupTotals(rows, src, ks, i, j, c)
    ensures ColumnTotal(rows, c) == Total(KeyedValues(src, i, j))
  {
    ColumnOfGroupSums(ks, rows, src, i, j, c);
    SumConservation(ks, src, i, j);
  }

  /** Column `i` of `t` can be grouped on, and `m` numbers one of the other columns. */
  predicate Groupable(t: Table, i: nat, m: nat) {
    WellFormed(t) && i < |t.columns| && m < |t.columns| - 1
  }

  /** Each cell of a summed column holds the total of its group, one group per distinct key. */
  lemma GroupSumCells(t: Table, i: nat, m: nat)
    requires Groupable(t, i, m)
    ensures HoldsGroupTotals(GroupBy(t, i, Sum).rows, t.rows, GroupKeys(t.rows, i), i, OtherColumn(m, i), m + 1)
  {
    var u, ks := GroupBy(t, i, Sum), GroupKeys(t.rows, i);
    forall g | 0 <= g < |u.rows|
      ensures u.rows[g][m + 1] == Some(Num(Total(GroupValues(t.rows, i, ks[g], OtherColumn(m, i)))))
    {
      assert u.rows[g][m + 1] == AggregateCell(t.rows, i, ks[g], OtherColumn(m, i), Sum);
    }
  }
}
