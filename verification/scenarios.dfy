/**
 * Concrete queries and what the interpreter makes of them. These are requests a user
 * would naturally type, and several are not understood the way they read.
 */
module Scenarios {
  import opened Wrappers
  import opened Tables
  import opened Query
  import Aggregation
  import Text

  // "rename total to x": the "to" inside "total" makes three pieces.

  /** A character of the keyword that the query lacks shows the keyword is absent. */
  lemma Lacks(q: string, keyword: string, j: nat)
    requires j < |keyword| && keyword[j] !in q
    ensures !Text.Contains(q, keyword)
  {
    Text.ContainedChars(q, keyword, j);
  }

  /** The lower-case requests are already normalised. */
  lemma LowerCaseNormal(q: string)
    requires q == "rename total to x" || q == "aggregate region" || q == "sort revenue ascending"
    ensures Normalise(q) == q
  {
    NormaliseUnchanged(q);
  }

  /**
   * A keyword whose character `j` the query shows only from position `|a|` on, too late
   * for the rest of the keyword to fit, is absent.
   */
  lemma LacksBefore(q: string, keyword: string, j: nat, a: string, b: string)
    requires q == a + b && j < |keyword| && keyword[j] !in a && |a| + |keyword| - j > |q|
    ensures !Text.Contains(q, keyword)
  {
    forall i | 0 <= i <= |q| ensures !Text.Occurs(q, keyword, i) {
      if i + |keyword| <= |q| {
        assert q[i..i + |keyword|][j] == a[i + j] && a[i + j] in a;
      }
    }
  }

  /** Neither rename request holds a keyword checked before "rename". */
  lemma RenameLacks(q: string)
    requires q == "rename total to x" || q == "rename mintemp to min"
    ensures !Text.Contains(q, "remove missing values") && !Text.Contains(q, "remove duplicates")
    ensures !Text.Contains(q, "filter")
  {
    Lacks(q, "remove missing values", 4);
    Lacks(q, "remove duplicates", 7);
    Lacks(q, "filter", 0);
  }

  /** Both rename requests are read as renames. */
  lemma RenameKind(q: string)
    requires q == "rename total to x" || q == "rename mintemp to min"
    ensures Classify(q) == Rename
  {
    assert Text.Occurs(q, "rename", 0);
    RenameLacks(q);
    ReadAsRename(q);
  }

  lemma StripOneSpace(p: string)
    requires |p| > 1 && p[0] == ' ' && !Text.IsSpace(p[1]) && !Text.IsSpace(p[|p| - 1])
    ensures Text.Strip(p) == p[1..]
  {
    Text.StripExact(p, 1, |p|);
  }

  /**
   * A query made of a keyword, one space and an operand that does not repeat the keyword
   * and neither starts nor ends with whitespace: the operand is read back exactly.
   */
  lemma OperandAfter(q: string, keyword: string, part: string)
    requires |keyword| > 0 && |part| > 0 && q == keyword + " " + part
    requires !Text.Contains(" " + part, keyword)
    requires !Text.IsSpace(part[0]) && !Text.IsSpace(part[|part| - 1])
    ensures Text.Contains(q, keyword) && Operand(q, keyword) == part
  {
    var rest := " " + part;
    assert q[..|keyword|] == keyword && q[|keyword|..] == rest;
    assert q[0..0 + |keyword|] == keyword;
    Text.SplitAtStart(q, keyword);
    StripOneSpace(rest);
    assert rest[1..] == part;
  }

  /**
   * A keyword, a space and a text lacking one of the keyword's characters and without
   * surrounding whitespace: the text is the operand.
   */
  lemma KeywordThen(q: string, keyword: string, part: string, j: nat)
    requires q == keyword + " " + part && j < |keyword| && keyword[j] != ' ' && keyword[j] !in part
    requires |part| > 0 && !Text.IsSpace(part[0]) && !Text.IsSpace(part[|part| - 1])
    ensures Text.Contains(q, keyword) && Operand(q, keyword) == part
  {
    assert " " + part == [' '] + part;
    Lacks(" " + part, keyword, j);
    OperandAfter(q, keyword, part);
  }

  /** The operand of either rename request is the text after "rename ". */
  lemma RenameOperand(q: string, part: string)
    requires || (q == "rename total to x" && part == "total to x")
             || (q == "rename mintemp to min" && part == "mintemp to min")
    ensures Text.Contains(q, "rename") && Operand(q, "rename") == part
  {
    assert q == "rename" + " " + part;
    KeywordThen(q, "rename", part, 0);
  }

  lemma TotalToX(part: string)
    requires part == "total to x"
    ensures ToTwice(part)
  {
    assert Text.Occurs(part, "to", 0);
    assert Text.Occurs(part[2..], "to", 4);
  }

  lemma RenameTotalRule(t: Table, q: string, part: string)
    requires WellFormed(t) && q == "rename total to x" && part == "total to x"
    ensures Text.Contains(q, "rename")
    ensures RenameQuery(t, q) == Outcome(t, QueryError(TooManyValuesToUnpack))
  {
    RenameOperand(q, part);
    TotalToX(part);
    RenameTooMany(t, q);
  }

  /**
   * "rename total to x" is refused with the unpacking error: the text after "rename"
   * holds "to" twice, once inside "total".
   */
  lemma RenameInsideWord(t: Table, query: string, evaluate: Evaluator)
    requires WellFormed(t) && query == "rename total to x"
    ensures Transform(t, query, evaluate) == Outcome(t, QueryError(TooManyValuesToUnpack))
  {
    LowerCaseNormal(query);
    RenameKind(query);
    RenameTotalRule(t, query, "total to x");
    DispatchRename(t, query, evaluate);
  }

  // "aggregate region": neither "sum" nor "mean", so nothing is understood.

  lemma AggregateRegionLacks(q: string)
    requires q == "aggregate region"
    ensures !Text.Contains(q, "remove missing values") && !Text.Contains(q, "remove duplicates")
    ensures !Text.Contains(q, "filter") && !Text.Contains(q, "rename") && !Text.Contains(q, "sort")
    ensures !Text.Contains(q, "sum") && !Text.Contains(q, "mean")
  {
    Lacks(q, "remove missing values", 2);
    Lacks(q, "remove duplicates", 2);
    Lacks(q, "filter", 0);
    Lacks(q, "rename", 4);
    Lacks(q, "sort", 0);
    Lacks(q, "sum", 0);
    Lacks(q, "mean", 0);
  }

  lemma AggregateRegionKind(q: string)
    requires q == "aggregate region"
    ensures Classify(q) == Aggregate
    ensures !Text.Contains(q, "sum") && !Text.Contains(q, "mean")
  {
    assert Text.Occurs(q, "aggregate", 0);
    AggregateRegionLacks(q);
    ReadAsAggregate(q);
  }

  /**
   * "aggregate region" names no aggregation function: it falls through to the
   * not-understood report and the table is left as it was.
   */
  lemma AggregateWithoutHow(t: Table, query: string, evaluate: Evaluator)
    requires WellFormed(t) && query == "aggregate region"
    ensures Transform(t, query, evaluate) == Outcome(t, NoValidQuery)
  {
    LowerCaseNormal(query);
    AggregateRegionKind(query);
    AggregateWithoutFunction(t, query, evaluate);
  }

  // "sort revenue ascending": the direction word becomes part of the column name.

  lemma SortRevenueLacks(q: string)
    requires q == "sort revenue ascending"
    ensures !Text.Contains(q, "remove missing values") && !Text.Contains(q, "remove duplicates")
    ensures !Text.Contains(q, "filter") && !Text.Contains(q, "rename")
  {
    Lacks(q, "remove missing values", 2);
    Lacks(q, "remove duplicates", 2);
    Lacks(q, "filter", 0);
    Lacks(q, "rename", 4);
  }

  lemma SortRevenueKind(q: string)
    requires q == "sort revenue ascending"
    ensures Classify(q) == Sort
  {
    assert Text.Occurs(q, "sort", 0);
    SortRevenueLacks(q);
    ReadAsSort(q);
  }

  lemma SortRevenueOperand(q: string, part: string)
    requires q == "sort revenue ascending" && part == "revenue ascending"
    ensures Text.Contains(q, "sort") && Operand(q, "sort") == part
  {
    assert q == "sort" + " " + part;
    KeywordThen(q, "sort", part, 1);
  }

  lemma SortRevenueRule(t: Table, q: string, part: string)
    requires WellFormed(t) && t.columns == ["revenue"]
    requires q == "sort revenue ascending" && part == "revenue ascending"
    ensures Text.Contains(q, "sort")
    ensures SortQuery(t, q) == Outcome(t, QueryError(KeyNotFound(part)))
  {
    SortRevenueOperand(q, part);
    assert |part| != |t.columns[0]|;
    SortKeyMissing(t, q);
  }

  /**
   * "sort revenue ascending" on a table whose only column is "revenue" is a key error
   * for the column "revenue ascending", and the table is left as it was.
   */
  lemma SortDirectionWord(t: Table, query: string, evaluate: Evaluator)
    requires WellFormed(t) && t.columns == ["revenue"] && query == "sort revenue ascending"
    ensures Transform(t, query, evaluate) == Outcome(t, QueryError(KeyNotFound("revenue ascending")))
  {
    LowerCaseNormal(query);
    SortRevenueKind(query);
    SortRevenueRule(t, query, "revenue ascending");
    DispatchSort(t, query, evaluate);
  }

  // "aggregate Region sum": the function word becomes part of the column name.

  /** "aggregate region sum" holds no keyword checked before "aggregate". */
  lemma AggregateSumLacks(q: string)
    requires q == "aggregate region sum"
    ensures !Text.Contains(q, "remove missing values") && !Text.Contains(q, "remove duplicates")
    ensures !Text.Contains(q, "filter") && !Text.Contains(q, "rename") && !Text.Contains(q, "sort")
  {
    Lacks(q, "remove missing values", 4);
    Lacks(q, "remove duplicates", 7);
    Lacks(q, "filter", 0);
    AggregateSumLacksLate(q);
  }

  /** Every "m" and "s" of "aggregate region sum" comes too late for "rename" or "sort". */
  lemma AggregateSumLacksLate(q: string)
    requires q == "aggregate region sum"
    ensures !Text.Contains(q, "rename") && !Text.Contains(q, "sort")
  {
    LacksBefore(q, "rename", 4, "aggregate region su", "m");
    LacksBefore(q, "sort", 0, "aggregate region ", "sum");
  }

  lemma AggregateSumKind(q: string)
    requires q == "aggregate region sum"
    ensures Classify(q) == Aggregate
    ensures Requested(q) == Some(Aggregation.Sum)
  {
    assert Text.Occurs(q, "aggregate", 0);
    assert Text.Occurs(q, "sum", 17);
    AggregateSumLacks(q);
    ReadAsAggregate(q);
  }

  lemma AggregateSumOperand(q: string, part: string)
    requires q == "aggregate region sum" && part == "region sum"
    ensures Text.Contains(q, "aggregate") && Operand(q, "aggregate") == part
  {
    assert q == "aggregate" + " " + part;
    KeywordThen(q, "aggregate", part, 0);
  }

  /**
   * "aggregate Region sum", the example request the app's input box offers, groups by a
   * column named "region sum": on a table without that label it is a key error, even
   * when a column "region" exists, and the table is left as it was.
   */
  lemma AggregateFunctionWord(t: Table, query: string, evaluate: Evaluator)
    requires WellFormed(t) && "region sum" !in t.columns && query == "aggregate Region sum"
    ensures Transform(t, query, evaluate) == Outcome(t, QueryError(KeyNotFound("region sum")))
  {
    var q := "aggregate region sum";
    MixedCaseNormal(query, q);
    AggregateSumKind(q);
    AggregateSumOperand(q, "region sum");
    DispatchAggregate(t, query, evaluate);
  }

  // "Rename MinTemp to Min": the old name matches ignoring case, the new one is lower-cased.

  /** The mixed-case requests lower-case to `q`. */
  lemma MixedCaseLower(query: string, q: string)
    requires || (query == "Rename MinTemp to Min" && q == "rename mintemp to min")
             || (query == "aggregate Region sum" && q == "aggregate region sum")
    ensures Text.Lower(query) == q
  {
    assert forall k :: 0 <= k < |q| ==> q[k] == Text.LowerChar(query[k]);
  }

  lemma MixedCaseNormal(query: string, q: string)
    requires || (query == "Rename MinTemp to Min" && q == "rename mintemp to min")
             || (query == "aggregate Region sum" && q == "aggregate region sum")
    ensures Normalise(query) == q
  {
    MixedCaseLower(query, q);
    Text.StripUnchanged(q);
  }

  lemma MinTempFirstTo(part: string)
    requires part == "mintemp to min"
    ensures Text.FindFirst(part, "to") == Some(8)
  {
    assert Text.Occurs(part, "to", 8);
    forall k | 0 <= k < 8 ensures !Text.Occurs(part, "to", k) {
      assert part[k..k + 2][1] == part[k + 1] != 'o';
    }
  }

  lemma MinTempPieces(part: string, oldName: string, newName: string)
    requires part == "mintemp to min" && oldName == "mintemp" && newName == "min"
    ensures |Text.Split(part, "to")| == 2
    ensures Text.Strip(Text.Split(part, "to")[0]) == oldName
    ensures Text.Strip(Text.Split(part, "to")[1]) == newName
  {
    MinTempFirstTo(part);
    Text.ContainedChars(part[10..], "to", 0);
    Text.SplitOnce(part, "to", 8);
    Text.StripExact(part[..8], 0, 7);
    assert part[..8][0..7] == oldName;
    Text.StripExact(part[10..], 1, 4);
    assert part[10..][1..4] == newName;
  }

  lemma MinTempColumn(columns: seq<string>, name: string)
    requires columns == ["Date", "MinTemp"] && name == "mintemp"
    ensures FindColumnIgnoringCase(columns, name) == Some(1)
  {
    assert Text.Lower(columns[1]) == name;
    Text.LowerUnchanged(name);
  }

  lemma MinTempRelabel(t: Table)
    requires t.columns == ["Date", "MinTemp"]
    ensures RenameColumn(t, t.columns[1], "min") == Table(["Date", "min"], t.rows)
  {
    assert RenameColumn(t, t.columns[1], "min").columns == ["Date", "min"];
  }

  lemma MinTempRule(t: Table, q: string, part: string)
    requires WellFormed(t) && t.columns == ["Date", "MinTemp"]
    requires Text.Contains(q, "rename") && Operand(q, "rename") == part && part == "mintemp to min"
    ensures RenameQuery(t, q) == Outcome(Table(["Date", "min"], t.rows), Renamed("MinTemp", "min"))
  {
    MinTempPieces(part, "mintemp", "min");
    MinTempColumn(t.columns, "mintemp");
    RenameFound(t, q, 1);
    MinTempRelabel(t);
  }

  /**
   * "Rename MinTemp to Min" finds the column "MinTemp" although the query is lower-cased
   * first, but the new label is the lower-cased "min": the column is not called "Min".
   */
  lemma CaseInsensitiveRename(t: Table, query: string, evaluate: Evaluator)
    requires WellFormed(t) && t.columns == ["Date", "MinTemp"] && query == "Rename MinTemp to Min"
    ensures Transform(t, query, evaluate) == Outcome(Table(["Date", "min"], t.rows), Renamed("MinTemp", "min"))
  {
    var q := "rename mintemp to min";
    MixedCaseNormal(query, q);
    RenameKind(q);
    var part := "mintemp to min";
    RenameOperand(q, part);
    MinTempRule(t, q, part);
    DispatchRename(t, query, evaluate);
  }
}
