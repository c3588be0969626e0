/**
 * The query interpreter: a free-text request is lower-cased and stripped, the first
 * keyword it contains picks one table operation, and the outcome is the transformed
 * table with a status message. Every failure leaves the table as it was.
 */
module Query {
  import opened Wrappers
  import opened Seqs
  import opened Values
  import opened Tables
  import opened Aggregation
  import Text

  /** The operation a query asks for. */
  datatype Kind = RemoveMissing | RemoveDuplicates | FilterRows | Rename | Sort | Aggregate | Unrecognised

  /** The keywords, in the order the interpreter tests them. */
  const Rules: seq<(string, Kind)> := [
    ("remove missing values", RemoveMissing),
    ("remove duplicates", RemoveDuplicates),
    ("filter", FilterRows),
    ("rename", Rename),
    ("sort", Sort),
    ("aggregate", Aggregate)
  ]

  /** The first rule at or after `n` whose keyword occurs in `q`. */
  function FirstMatch(q: string, n: nat): (m: Option<nat>)
    requires n <= |Rules|
    decreases |Rules| - n
    ensures m.Some? ==> n <= m.value < |Rules| && Text.Contains(q, Rules[m.value].0)
    ensures m.Some? ==> forall k :: n <= k < m.value ==> !Text.Contains(q, Rules[k].0)
    ensures m.None? ==> forall k :: n <= k < |Rules| ==> !Text.Contains(q, Rules[k].0)
  {
    if n == |Rules| then None
    else if Text.Contains(q, Rules[n].0) then Some(n)
    else FirstMatch(q, n + 1)
  }

  /** The operation of the first keyword that occurs in the (normalised) query. */
  function Classify(q: string): (k: Kind)
    ensures k == Unrecognised <==> forall n :: 0 <= n < |Rules| ==> !Text.Contains(q, Rules[n].0)
  {
    match FirstMatch(q, 0)
    case None => Unrecognised
    case Some(n) => Rules[n].1
  }

  /**
   * Keyword priority: the query is read as rule `n` exactly when it contains rule `n`'s
   * keyword and none of the keywords checked before it.
   */
  lemma ClassifyPriority(q: string, n: nat)
    requires n < |Rules|
    ensures Classify(q) == Rules[n].1 <==>
      Text.Contains(q, Rules[n].0) && forall k :: 0 <= k < n ==> !Text.Contains(q, Rules[k].0)
  {
    var m := FirstMatch(q, 0);
    if m.Some? && m.value != n {
      assert Rules[m.value].1 != Rules[n].1;
    }
  }

  /** The operation a query is read as is named by a keyword the query contains. */
  lemma KeywordPresent(q: string)
    ensures Classify(q) == FilterRows ==> Text.Contains(q, "filter")
    ensures Classify(q) == Rename ==> Text.Contains(q, "rename")
    ensures Classify(q) == Sort ==> Text.Contains(q, "sort")
    ensures Classify(q) == Aggregate ==> Text.Contains(q, "aggregate")
  {
    ClassifyPriority(q, 2);
    ClassifyPriority(q, 3);
    ClassifyPriority(q, 4);
    ClassifyPriority(q, 5);
  }

  /** A query naming "remove duplicates" but not "remove missing values" removes duplicates. */
  lemma ReadAsRemoveDuplicates(q: string)
    requires Text.Contains(q, "remove duplicates") && !Text.Contains(q, "remove missing values")
    ensures Classify(q) == RemoveDuplicates
  {
    ClassifyPriority(q, 1);
  }

  /** A query naming "rename" but none of the keywords checked before it is a rename. */
  lemma ReadAsRename(q: string)
    requires Text.Contains(q, "rename")
    requires !Text.Contains(q, "remove missing values") && !Text.Contains(q, "remove duplicates")
    requires !Text.Contains(q, "filter")
    ensures Classify(q) == Rename
  {
    ClassifyPriority(q, 3);
  }

  /** A query naming "sort" but none of the keywords checked before it is a sort. */
  lemma ReadAsSort(q: string)
    requires Text.Contains(q, "sort")
    requires !Text.Contains(q, "remove missing values") && !Text.Contains(q, "remove duplicates")
    requires !Text.Contains(q, "filter") && !Text.Contains(q, "rename")
    ensures Classify(q) == Sort
  {
    ClassifyPriority(q, 4);
  }

  /** A query naming "aggregate" but none of the other keywords is an aggregation. */
  lemma ReadAsAggregate(q: string)
    requires Text.Contains(q, "aggregate")
    requires !Text.Contains(q, "remove missing values") && !Text.Contains(q, "remove duplicates")
    requires !Text.Contains(q, "filter") && !Text.Contains(q, "rename") && !Text.Contains(q, "sort")
    ensures Classify(q) == Aggregate
  {
    ClassifyPriority(q, 5);
  }

  /** What an operation raised, in the interpreter's outer exception handler. */
  datatype Fault =
    | TooManyValuesToUnpack                 // more than one "to" after "rename"
    | KeyNotFound(column: string)            // the named column does not exist
    | LabelNotUnique(column: string)         // sorting by a label several columns share
    | GrouperNotOneDimensional(column: string) // grouping by a label several columns share
    | Unorderable                           // sorting a column mixing text and numbers
    | NonNumeric(how: How)                  // aggregating a column that holds text

  /** The status of an outcome. */
  datatype Message =
    | MissingRemoved
    | DuplicatesRemoved
    | Filtered(condition: string)
    | FilterFailed(detail: string)
    | Renamed(oldName: string, newName: string)
    | ColumnNotFound(name: string)
    | InvalidRename
    | Sorted(column: string, ascending: bool)
    | Aggregated(column: string, how: How)
    | NoValidQuery
    | QueryError(fault: Fault)
  {
    /** The operation was carried out (as opposed to a refusal or an error). */
    predicate Applied() {
      MissingRemoved? || DuplicatesRemoved? || Filtered? || Renamed? || Sorted? || Aggregated?
    }
  }

  datatype Outcome = Outcome(table: Table, message: Message)

  /**
   * How a filter condition is evaluated against a table (`df.query`): either a predicate
   * selecting the rows to keep, or the text of the error it raised.
   */
  type Evaluator = (string, Table) -> Result<Row -> bool, string>

  /** The text after the first occurrence of `keyword`, up to the next one, stripped. */
  function Operand(q: string, keyword: string): (s: string)
    requires |keyword| > 0 && Text.Contains(q, keyword)
    ensures |s| > 0 ==> !Text.IsSpace(s[0]) && !Text.IsSpace(s[|s| - 1])
    ensures !Text.Contains(s, keyword)
  {
    Text.SplitPartsFree(q, keyword);
    var p := Text.Split(q, keyword)[1];
    var s := Text.Strip(p);
    Text.StripContains(p, keyword);
    s
  }

  /**
   * The operand is the stripped text from the end of the keyword's first occurrence to
   * the next occurrence searched from there, or to the end of the query.
   */
  lemma OperandBetween(q: string, keyword: string) returns (i: nat, b: nat)
    requires |keyword| > 0 && Text.Contains(q, keyword)
    ensures Text.FindFirst(q, keyword) == Some(i)
    ensures i + |keyword| <= b <= |q|
    ensures Text.FindFrom(q, keyword, i + |keyword|) == if b < |q| then Some(b) else None
    ensures Operand(q, keyword) == Text.Strip(q[i + |keyword|..b])
  {
    i, b := Text.SecondPart(q, keyword);
  }

  /** `filter <condition>`: keep the rows the evaluated condition selects. */
  function FilterQuery(t: Table, q: string, evaluate: Evaluator): (o: Outcome)
    requires WellFormed(t) && Text.Contains(q, "filter")
    ensures WellFormed(o.table)
    ensures |o.table.rows| <= |t.rows|
    ensures o.message.Filtered? || o.message.FilterFailed?
    ensures o.message.Filtered? <==> evaluate(Operand(q, "filter"), t).Success?
    ensures o.message.Filtered? ==>
      && o.message.condition == Operand(q, "filter")
      && o.table.columns == t.columns
      && IsSubseq(o.table.rows, t.rows)
      && forall r :: r in o.table.rows <==> r in t.rows && evaluate(Operand(q, "filter"), t).value(r)
    ensures o.message.Filtered? ==> o.table == KeepRows(t, evaluate(Operand(q, "filter"), t).value)
    ensures o.message.FilterFailed? ==> o.table == t && evaluate(Operand(q, "filter"), t) == Failure(o.message.detail)
  {
    var condition := Operand(q, "filter");
    match evaluate(condition, t)
    case Success(keep) => Outcome(KeepRows(t, keep), Filtered(condition))
    case Failure(e) => Outcome(t, FilterFailed(e))
  }

  /** "to" occurs in `part`, and again after its first occurrence. */
  predicate ToTwice(part: string) {
    Text.Contains(part, "to") && Text.Contains(part[Text.FindFirst(part, "to").value + 2..], "to")
  }

  /**
   * Relabel the first column whose name matches `oldName` ignoring case; the outcome
   * reports the label it had.
   */
  function RenameMatching(t: Table, oldName: string, newName: string): (o: Outcome)
    requires WellFormed(t)
    ensures WellFormed(o.table)
    ensures o.table.rows == t.rows
    ensures o.message.Renamed? || o.message.ColumnNotFound?
    ensures o.message.Renamed? ==>
      && o.message.oldName in t.columns
      && Text.Lower(o.message.oldName) == Text.Lower(oldName)
      && o.message.newName == newName
      && newName in o.table.columns
      && (o.message.oldName != newName ==> o.message.oldName !in o.table.columns)
      && o.table == RenameColumn(t, o.message.oldName, newName)
    ensures o.message.ColumnNotFound? ==>
      && o.table == t
      && o.message.name == oldName
      && forall c :: c in t.columns ==> Text.Lower(c) != Text.Lower(oldName)
    ensures o.message.Renamed? <==> FindColumnIgnoringCase(t.columns, oldName).Some?
    ensures o.message.Renamed? ==>
      o.message.oldName == t.columns[FindColumnIgnoringCase(t.columns, oldName).value]
  {
    match FindColumnIgnoringCase(t.columns, oldName)
    case None => Outcome(t, ColumnNotFound(oldName))
    case Some(p) =>
      var u := RenameColumn(t, t.columns[p], newName);
      assert u.columns[p] == newName;
      Outcome(u, Renamed(t.columns[p], newName))
  }

  /**
   * `rename <old> to <new>`: relabel the first column whose name matches `old` ignoring
   * case. The text must hold exactly one "to"; the new name is the lower-cased text.
   */
  function RenameQuery(t: Table, q: string): (o: Outcome)
    requires WellFormed(t) && Text.Contains(q, "rename")
    ensures WellFormed(o.table)
    ensures o.table.rows == t.rows
    ensures !o.message.Applied() ==> o.table == t
    ensures o.message.Renamed? || o.message.ColumnNotFound? || o.message == InvalidRename
      || o.message == QueryError(TooManyValuesToUnpack)
    ensures o.message == InvalidRename <==> !Text.Contains(Operand(q, "rename"), "to")
    ensures o.message == QueryError(TooManyValuesToUnpack) <==> ToTwice(Operand(q, "rename"))
    ensures o.message.Renamed? ==>
      && o.message.oldName in t.columns
      && o.message.newName in o.table.columns
      && (o.message.oldName != o.message.newName ==> o.message.oldName !in o.table.columns)
    ensures o.message.Renamed? ==> o.table == RenameColumn(t, o.message.oldName, o.message.newName)
    ensures o.message.ColumnNotFound? ==>
      forall c :: c in t.columns ==> Text.Lower(c) != Text.Lower(o.message.name)
    ensures var pieces := Text.Split(Operand(q, "rename"), "to");
      o.message.Renamed? || o.message.ColumnNotFound? <==> |pieces| == 2
    ensures var pieces := Text.Split(Operand(q, "rename"), "to");
      o.message.ColumnNotFound? ==> |pieces| == 2 && o.message.name == Text.Strip(pieces[0])
    ensures var pieces := Text.Split(Operand(q, "rename"), "to");
      o.message.Renamed? ==>
        && |pieces| == 2
        && o.message.newName == Text.Strip(pieces[1])
        && FindColumnIgnoringCase(t.columns, Text.Strip(pieces[0])).Some?
        && o.message.oldName == t.columns[FindColumnIgnoringCase(t.columns, Text.Strip(pieces[0])).value]
  {
    var part := Operand(q, "rename");
    if !Text.Contains(part, "to") then Outcome(t, InvalidRename)
    else
      Text.SplitTwo(part, "to");
      var pieces := Text.Split(part, "to");
      if |pieces| != 2 then Outcome(t, QueryError(TooManyValuesToUnpack))
      else RenameMatching(t, Text.Strip(pieces[0]), Text.Strip(pieces[1]))
  }

  /** A second "to" after "rename" is the unpacking error, whatever the table. */
  lemma RenameTooMany(t: Table, q: string)
    requires WellFormed(t) && Text.Contains(q, "rename") && ToTwice(Operand(q, "rename"))
    ensures RenameQuery(t, q) == Outcome(t, QueryError(TooManyValuesToUnpack))
  {
  }

  /**
   * A rename with one "to" whose old name matches a column ignoring case relabels the
   * first such column with the stripped new name, as given.
   */
  lemma RenameFound(t: Table, q: string, p: nat)
    requires WellFormed(t) && Text.Contains(q, "rename")
    requires |Text.Split(Operand(q, "rename"), "to")| == 2
    requires FindColumnIgnoringCase(t.columns, Text.Strip(Text.Split(Operand(q, "rename"), "to")[0])) == Some(p)
    ensures p < |t.columns|
    ensures RenameQuery(t, q) ==
      Outcome(RenameColumn(t, t.columns[p], Text.Strip(Text.Split(Operand(q, "rename"), "to")[1])),
              Renamed(t.columns[p], Text.Strip(Text.Split(Operand(q, "rename"), "to")[1])))
  {
  }

  /** All columns labelled `name` are ordered (missing values last). */
  predicate SortedOn(u: Table, name: string, ascending: bool) {
    forall i, a, b :: 0 <= i < |u.columns| && u.columns[i] == name && 0 <= a < b < |u.rows| && i < |u.rows[a]| && i < |u.rows[b]| ==>
      CellOrdered(u.rows[a][i], u.rows[b][i], ascending)
  }

  /**
   * `sort <column>`: order the rows by the column labelled exactly by the rest of the
   * query, descending when the query says "descending" anywhere.
   */
  function SortQuery(t: Table, q: string): (o: Outcome)
    requires WellFormed(t) && Text.Contains(q, "sort")
    ensures WellFormed(o.table)
    ensures |o.table.rows| == |t.rows|
    ensures !o.message.Applied() ==> o.table == t
    ensures o.message.Sorted? || o.message.QueryError?
    ensures o.message == QueryError(KeyNotFound(Operand(q, "sort"))) <==> Operand(q, "sort") !in t.columns
    ensures o.message == QueryError(LabelNotUnique(Operand(q, "sort"))) <==>
      |ColumnPositions(t.columns, Operand(q, "sort"))| > 1
    ensures o.message.Sorted? ==>
      && o.message.column == Operand(q, "sort")
      && o.message.ascending == !Text.Contains(q, "descending")
      && o.table.columns == t.columns
      && multiset(o.table.rows) == multiset(t.rows)
      && SortedOn(o.table, o.message.column, o.message.ascending)
    ensures var ps := ColumnPositions(t.columns, Operand(q, "sort"));
      o.message.Sorted? <==> |ps| == 1 && Orderable(t, ps[0])
    ensures var ps := ColumnPositions(t.columns, Operand(q, "sort"));
      o.message == QueryError(Unorderable) <==> |ps| == 1 && !Orderable(t, ps[0])
    ensures var ps := ColumnPositions(t.columns, Operand(q, "sort"));
      o.message.Sorted? ==> |ps| == 1 && ps[0] < |t.columns| && o.table == SortByColumn(t, ps[0], o.message.ascending)
  {
    var column := Operand(q, "sort");
    var ascending := !Text.Contains(q, "descending");
    var ps := ColumnPositions(t.columns, column);
    if |ps| == 0 then
      assert column !in t.columns by {
        forall k | 0 <= k < |t.columns| ensures t.columns[k] != column {
          assert k as nat !in ps;
        }
      }
      Outcome(t, QueryError(KeyNotFound(column)))
    else
      assert ps[0] in ps;
      if |ps| > 1 then Outcome(t, QueryError(LabelNotUnique(column)))
      else if !Orderable(t, ps[0]) then Outcome(t, QueryError(Unorderable))
      else
        var u := SortByColumn(t, ps[0], ascending);
        SortedUnique(t, u, ps[0], column, ascending);
        assert |u.rows| == |multiset(u.rows)| == |multiset(t.rows)| == |t.rows|;
        Outcome(u, Sorted(column, ascending))
  }

  /** Sorting by a label no column carries is a key error, whatever the table holds. */
  lemma SortKeyMissing(t: Table, q: string)
    requires WellFormed(t) && Text.Contains(q, "sort") && Operand(q, "sort") !in t.columns
    ensures SortQuery(t, q) == Outcome(t, QueryError(KeyNotFound(Operand(q, "sort"))))
  {
  }

  lemma SortedUnique(t: Table, u: Table, i: nat, name: string, ascending: bool)
    requires WellFormed(t) && i < |t.columns|
    requires ColumnPositions(t.columns, name) == [i]
    requires u == SortByColumn(t, i, ascending)
    ensures SortedOn(u, name, ascending)
  {
    forall j | 0 <= j < |u.columns| && u.columns[j] == name ensures j == i {
      assert j as nat in ColumnPositions(t.columns, name);
    }
  }

  /** The aggregation a query names: "sum" wins over "mean"; neither names none. */
  function Requested(q: string): (h: Option<How>)
    ensures h == Some(Sum) <==> Text.Contains(q, "sum")
    ensures h == Some(Mean) <==> !Text.Contains(q, "sum") && Text.Contains(q, "mean")
  {
    if Text.Contains(q, "sum") then Some(Sum)
    else if Text.Contains(q, "mean") then Some(Mean)
    else None
  }

  /** Every present cell outside the grouping column `i` is a number. */
  predicate NumericOutside(t: Table, i: nat) {
    forall r: Row, k :: r in t.rows && 0 <= k < |r| && k != i && r[k].Some? ==> r[k].value.Num?
  }

  /**
   * `aggregate <column> ... sum|mean`: group by the column labelled exactly by the rest of
   * the query. Without "sum" or "mean" the query is not understood.
   */
  function AggregateQuery(t: Table, q: string): (o: Outcome)
    requires WellFormed(t) && Text.Contains(q, "aggregate")
    ensures WellFormed(o.table)
    ensures !o.message.Applied() ==> o.table == t
    ensures |o.table.rows| <= |t.rows|
    ensures o.message.Aggregated? || o.message.QueryError? || o.message == NoValidQuery
    ensures o.message == NoValidQuery <==> Requested(q).None?
    ensures o.message == QueryError(KeyNotFound(Operand(q, "aggregate"))) <==>
      Requested(q).Some? && Operand(q, "aggregate") !in t.columns
    ensures o.message == QueryError(GrouperNotOneDimensional(Operand(q, "aggregate"))) <==>
      Requested(q).Some? && |ColumnPositions(t.columns, Operand(q, "aggregate"))| > 1
    ensures o.message.Aggregated? ==>
      && o.message.column == Operand(q, "aggregate")
      && Some(o.message.how) == Requested(q)
      && exists i :: 0 <= i < |t.columns| && t.columns[i] == o.message.column && NumericOutside(t, i)
           && o.table == GroupBy(t, i, o.message.how)
    ensures var ps := ColumnPositions(t.columns, Operand(q, "aggregate"));
      o.message.Aggregated? <==> Requested(q).Some? && |ps| == 1 && NumericOutside(t, ps[0])
    ensures var ps := ColumnPositions(t.columns, Operand(q, "aggregate"));
      (o.message.QueryError? && o.message.fault.NonNumeric?) <==>
        Requested(q).Some? && |ps| == 1 && !NumericOutside(t, ps[0])
    ensures o.message.QueryError? && o.message.fault.NonNumeric? ==>
      Requested(q).Some? && o.message.fault.how == Requested(q).value
    ensures var ps := ColumnPositions(t.columns, Operand(q, "aggregate"));
      o.message.Aggregated? ==> |ps| == 1 && ps[0] < |t.columns| && o.table == GroupBy(t, ps[0], o.message.how)
  {
    var column := Operand(q, "aggregate");
    match Requested(q)
    case None => Outcome(t, NoValidQuery)
    case Some(how) =>
      var ps := ColumnPositions(t.columns, column);
      if |ps| == 0 then
        assert column !in t.columns by {
          forall k | 0 <= k < |t.columns| ensures t.columns[k] != column {
            assert k as nat !in ps;
          }
        }
        Outcome(t, QueryError(KeyNotFound(column)))
      else
        assert ps[0] in ps;
        if |ps| > 1 then Outcome(t, QueryError(GrouperNotOneDimensional(column)))
        else if !NumericOutside(t, ps[0]) then Outcome(t, QueryError(NonNumeric(how)))
        else Outcome(GroupBy(t, ps[0], how), Aggregated(column, how))
  }

  /** The query after normalisation: lower-cased, then stripped of surrounding whitespace. */
  function Normalise(query: string): (q: string)
    ensures forall k :: 0 <= k < |q| ==> !Text.IsUpper(q[k])
  {
    Text.StripNoUpper(Text.Lower(query));
    Text.Strip(Text.Lower(query))
  }

  /**
   * The normalised query is the lower-cased query with its leading and trailing
   * whitespace cut off: the infix with only whitespace around it and none at its ends.
   */
  lemma NormaliseInfix(query: string) returns (a: nat, b: nat)
    ensures Text.Surrounded(Text.Lower(query), a, b)
    ensures a < b ==> !Text.IsSpace(Text.Lower(query)[a]) && !Text.IsSpace(Text.Lower(query)[b - 1])
    ensures Normalise(query) == Text.Lower(query)[a..b]
  {
    a, b := Text.StripInfix(Text.Lower(query));
  }

  /** A query already lower-case and stripped is its own normal form. */
  lemma NormaliseUnchanged(q: string)
    requires forall k :: 0 <= k < |q| ==> !Text.IsUpper(q[k])
    requires |q| > 0 ==> !Text.IsSpace(q[0]) && !Text.IsSpace(q[|q| - 1])
    ensures Normalise(q) == q
  {
    Text.LowerUnchanged(q);
    Text.StripUnchanged(q);
  }

  /** The whole interpreter: normalise, dispatch on the first keyword, apply. */
  function Transform(t: Table, query: string, evaluate: Evaluator): (o: Outcome)
    requires WellFormed(t)
    ensures WellFormed(o.table)
    ensures !o.message.Applied() ==> o.table == t
    ensures |o.table.rows| <= |t.rows|
  {
    var q := Normalise(query);
    KeywordPresent(q);
    match Classify(q)
    case RemoveMissing => Outcome(DropMissing(t), MissingRemoved)
    case RemoveDuplicates => Outcome(DropDuplicates(t), DuplicatesRemoved)
    case FilterRows =>
      FilterQuery(t, q, evaluate)
    case Rename =>
      RenameQuery(t, q)
    case Sort =>
      SortQuery(t, q)
    case Aggregate =>
      AggregateQuery(t, q)
    case Unrecognised => Outcome(t, NoValidQuery)
  }

  /** A query is understood the same whatever its letter case. */
  lemma TransformIgnoresCase(t: Table, query: string, evaluate: Evaluator)
    requires WellFormed(t)
    ensures Transform(t, Text.Lower(query), evaluate) == Transform(t, query, evaluate)
  {
    Text.LowerIdempotent(query);
    assert Normalise(Text.Lower(query)) == Normalise(query);
  }

  lemma Fallback(t: Table, query: string, evaluate: Evaluator)
    requires WellFormed(t)
    ensures Classify(Normalise(query)) == Unrecognised ==> Transform(t, query, evaluate) == Outcome(t, NoValidQuery)
  {
  }

  /** A query read as a rename is handled by the rename rule alone. */
  lemma DispatchRename(t: Table, query: string, evaluate: Evaluator)
    requires WellFormed(t) && Classify(Normalise(query)) == Rename
    ensures Text.Contains(Normalise(query), "rename")
    ensures Transform(t, query, evaluate) == RenameQuery(t, Normalise(query))
  {
    KeywordPresent(Normalise(query));
  }

  /** A query read as a filter is handled by the filter rule alone. */
  lemma DispatchFilter(t: Table, query: string, evaluate: Evaluator)
    requires WellFormed(t) && Classify(Normalise(query)) == FilterRows
    ensures Text.Contains(Normalise(query), "filter")
    ensures Transform(t, query, evaluate) == FilterQuery(t, Normalise(query), evaluate)
  {
    KeywordPresent(Normalise(query));
  }

  /** A query read as an aggregation is handled by the aggregation rule alone. */
  lemma DispatchAggregate(t: Table, query: string, evaluate: Evaluator)
    requires WellFormed(t) && Classify(Normalise(query)) == Aggregate
    ensures Text.Contains(Normalise(query), "aggregate")
    ensures Transform(t, query, evaluate) == AggregateQuery(t, Normalise(query))
  {
    KeywordPresent(Normalise(query));
  }

  /** A query read as a sort is handled by the sort rule alone. */
  lemma DispatchSort(t: Table, query: string, evaluate: Evaluator)
    requires WellFormed(t) && Classify(Normalise(query)) == Sort
    ensures Text.Contains(Normalise(query), "sort")
    ensures Transform(t, query, evaluate) == SortQuery(t, Normalise(query))
  {
    KeywordPresent(Normalise(query));
  }

  /** A query without any keyword changes nothing and is reported as not understood. */
  lemma NoKeywordNoChange(t: Table, query: string, evaluate: Evaluator)
    requires WellFormed(t)
    requires forall n :: 0 <= n < |Rules| ==> !Text.Contains(Normalise(query), Rules[n].0)
    ensures Transform(t, query, evaluate) == Outcome(t, NoValidQuery)
  {
    Fallback(t, query, evaluate);
  }

  /** "remove missing values" wins over every other keyword. */
  lemma RemoveMissingFirst(t: Table, query: string, evaluate: Evaluator)
    requires WellFormed(t) && Text.Contains(Normalise(query), "remove missing values")
    ensures Transform(t, query, evaluate) == Outcome(DropMissing(t), MissingRemoved)
  {
    ClassifyPriority(Normalise(query), 0);
  }

  /** "remove duplicates" applies unless "remove missing values" is also asked for. */
  lemma RemoveDuplicatesSecond(t: Table, query: string, evaluate: Evaluator)
    requires WellFormed(t)
    requires Text.Contains(Normalise(query), "remove duplicates")
    requires !Text.Contains(Normalise(query), "remove missing values")
    ensures Transform(t, query, evaluate) == Outcome(DropDuplicates(t), DuplicatesRemoved)
  {
    ReadAsRemoveDuplicates(Normalise(query));
  }

  /**
   * An "aggregate" query that names neither "sum" nor "mean" falls through to the
   * not-understood report, leaving the table as it was.
   */
  lemma AggregateWithoutFunction(t: Table, query: string, evaluate: Evaluator)
    requires WellFormed(t)
    requires Classify(Normalise(query)) == Aggregate
    requires !Text.Contains(Normalise(query), "sum") && !Text.Contains(Normalise(query), "mean")
    ensures Transform(t, query, evaluate) == Outcome(t, NoValidQuery)
  {
  }

  function HowName(how: How): string {
    match how
    case Sum => "sum"
    case Mean => "mean"
  }

  /** The text of the exception behind a fault. */
  function FaultText(f: Fault): string {
    match f
    case TooManyValuesToUnpack => "too many values to unpack (expected 2)"
    case KeyNotFound(c) => "'" + c + "'"
    case LabelNotUnique(c) => "The column label '" + c + "' is not unique."
    case GrouperNotOneDimensional(c) => "Grouper for '" + c + "' not 1-dimensional"
    case Unorderable => "'<' not supported between instances of 'str' and 'float'"
    case NonNumeric(how) => "agg function failed [how->" + HowName(how) + ",dtype->object]"
  }

  /** The status text shown to the user. */
  function Render(m: Message): string {
    match m
    case MissingRemoved => "Missing values removed."
    case DuplicatesRemoved => "Duplicates removed."
    case Filtered(c) => "Data filtered with condition: " + c
    case FilterFailed(e) => "Error filtering data: " + e
    case Renamed(a, n) => "Column '" + a + "' renamed to '" + n + "'."
    case ColumnNotFound(c) => "Column '" + c + "' not found in the dataset."
    case InvalidRename => "Invalid rename query. " + "Use format: 'rename old_name to new_name'."
    case Sorted(c, ascending) =>
      "Data sorted by '" + c + "' in " + (if ascending then "ascending" else "descending") + " order."
    case Aggregated(c, how) => "Data aggregated by '" + c + "' with " + HowName(how) + "."
    case NoValidQuery => "No valid query found. Please try again."
    case QueryError(f) => "Error processing query: " + FaultText(f)
  }

  /** The text reports an error. */
  predicate IsErrorReport(s: string) {
    |s| >= 6 && s[..6] == "Error "
  }

  /** A text that does not start with 'E' is not an error report. */
  lemma NotErrorReport(s: string)
    requires |s| > 0 && s[0] != 'E'
    ensures !IsErrorReport(s)
  {
    if |s| >= 6 {
      assert s[..6][0] == s[0];
    }
  }

  lemma FailureReported(m: Message)
    requires m.FilterFailed? || m.QueryError?
    ensures IsErrorReport(Render(m))
  {
    assert Render(m)[..6] == "Error ";
  }

  lemma SuccessNotReported(m: Message)
    requires !m.FilterFailed? && !m.QueryError?
    ensures !IsErrorReport(Render(m))
  {
    match m
    case MissingRemoved => NotErrorReport(Render(m));
    case DuplicatesRemoved => NotErrorReport(Render(m));
    case Filtered(c) => NotErrorReport(Render(m));
    case Renamed(a, n) => NotErrorReport(Render(m));
    case ColumnNotFound(c) => NotErrorReport(Render(m));
    case InvalidRename => NotErrorReport(Render(m));
    case Sorted(c, ascending) => NotErrorReport(Render(m));
    case Aggregated(c, how) => NotErrorReport(Render(m));
    case NoValidQuery => NotErrorReport(Render(m));
  }

  /** Exactly the failed filter and the caught exceptions are reported as errors. */
  lemma ErrorReports(m: Message)
    ensures IsErrorReport(Render(m)) <==> m.FilterFailed? || m.QueryError?
  {
    if m.FilterFailed? || m.QueryError? {
      FailureReported(m);
    } else {
      SuccessNotReported(m);
    }
  }

  /**
   * `clean_data(df, query)`: the resulting table and the status text. An error report
   * always comes with the table unchanged.
   */
  function CleanData(t: Table, query: string, evaluate: Evaluator): (r: (Table, string))
    requires WellFormed(t)
    ensures WellFormed(r.0)
    ensures |r.0.rows| <= |t.rows|
    ensures IsErrorReport(r.1) ==> r.0 == t
  {
    var o := Transform(t, query, evaluate);
    ErrorReports(o.message);
    (o.table, Render(o.message))
  }

  /** A query without a keyword gets the fixed not-understood text and the table back. */
  lemma CleanDataFallback(t: Table, query: string, evaluate: Evaluator)
    requires WellFormed(t) && Classify(Normalise(query)) == Unrecognised
    ensures CleanData(t, query, evaluate) == (t, "No valid query found. Please try again.")
  {
    Fallback(t, query, evaluate);
  }
}
