# A verified model of `clean_data`

`clean_data(df, query)` is the data-cleaning interpreter behind the Data Visualization app. It
takes a table (a pandas DataFrame) and a free-text request. It returns the transformed table
and a status message. The request is lower-cased and stripped. The first of six keywords it
contains then decides what happens:

1. "remove missing values" — `dropna`.
2. "remove duplicates" — `drop_duplicates`.
3. "filter" — `df.query` on the condition.
4. "rename" — case-insensitive column rename, `old to new`.
5. "sort" — `sort_values` by a column, descending when the request says "descending".
6. "aggregate" — `groupby` with "sum" or "mean".

A request containing none of these is not understood. Operands are cut with Python's
`str.split`, which splits at *every* occurrence of the keyword. An operand is therefore the
text between the first and second occurrence, stripped. An error raised by `df.query` is
caught by the filter's own handler and reported as `Error filtering data: …`. Every other
exception is caught by the outer handler and reported as `Error processing query: …`. In both
cases the table is returned as it was.

The project is organised as follows:

- `wrappers.dfy` — `Option` and `Result`.
- `text.dfy` — Python's `str.lower` (ASCII letters), `str.strip` (Python's whitespace set),
  `in` and `str.split`.
- `seqs.dfy` — order-preserving filtering and first-occurrence de-duplication of sequences.
- `values.dfy` — cell values and the order pandas uses for them: numbers before strings,
  strings by code point, missing last.
- `sorting.dfy` — a stable sort by a key.
- `tables.dfy` — the table and its `dropna`, `drop_duplicates`, `query`, `rename` and
  `sort_values` operations.
- `aggregate.dfy` — `groupby(column).sum()/.mean().reset_index()`.
- `query.dfy` — keyword dispatch, operand extraction, every branch's outcome, the status
  text and `clean_data` itself.
- `scenarios.dfy` — concrete requests whose result differs from what they appear to ask.

Outcomes are values, not exceptions. The `Message` datatype has one constructor per message
`clean_data` can return. Its `QueryError` constructor carries a `Fault` naming the exception
the outer handler caught. `df.query` is a parameter of type `Evaluator`: it maps a condition
and a table to a row predicate or to the text of an error.

In these places the model follows what the code does, which a reader might not expect:

- The new name of a rename is lower-cased, because the whole request is lower-cased before
  the operand is cut.
- `df.rename(columns={old: new})` relabels every column carrying the matched stored label,
  not only the first. With distinct labels this is one column.
- A sort column is the entire text after "sort", so "sort revenue ascending" names the
  column "revenue ascending".
- Aggregation is modelled for both "sum" and "mean".
- `drop_duplicates` returns a frame pandas considers empty as it is. That includes a table
  with rows but no columns, whose rows are all kept even though they are equal.
- "aggregate Region sum" groups by a column "region sum": the text after "aggregate",
  function word included, is the column name.

## Model

| member | source | states |
|---|---|---|
| Text.Lower | main.py:16 | lower-casing keeps the length and maps each character through ASCII lower-casing |
| Text.LowerIdempotent | main.py:16 | lower-casing twice is lower-casing once |
| Text.Strip | main.py:16 | the stripped text is no longer than the input and neither starts nor ends with whitespace |
| Text.StripInfix | main.py:16 | the stripped text is an infix of the input with only whitespace before and after it |
| Text.StripExact | main.py:16 | the infix between leading and trailing whitespace runs is exactly what strip returns |
| Text.StripUnchanged | main.py:16 | text without surrounding whitespace strips to itself |
| Text.StripNoUpper | main.py:16 | stripping lower-case text leaves no capital letter |
| Text.FindFirst | main.py:30 | the position found is an occurrence with none before it; none found means no occurrence |
| Text.Split | main.py:30 | joining the pieces with the separator gives back the text; there are two or more pieces exactly when the separator occurs |
| Text.SplitPartsFree | main.py:30 | no piece of a split contains the separator |
| Text.SecondPart | main.py:30-32 | the second piece of a split runs from the end of the first occurrence of the separator to the next occurrence searched from there, or to the end |
| Text.ContainsInfix | main.py:32 | text containing a piece of a string occurs in the string |
| Seqs.Dedup | main.py:25 | the result is a distinct-element subsequence with exactly the input's members |
| Tables.DropMissing | main.py:19-21 | `dropna` keeps exactly the complete rows, in order, with columns unchanged and well-formedness kept |
| Tables.DropMissingExact | main.py:20 | each complete row is kept as often as it occurred and every other row is dropped |
| Tables.DropMissingIdempotent | main.py:20 | dropping missing values twice equals dropping them once |
| Tables.DropDuplicates | main.py:24-26 | `drop_duplicates` on a table with columns leaves no two equal rows and keeps every distinct row, in order; a table without columns counts as empty and comes back unchanged |
| Tables.DropDuplicatesKeepsFirst | main.py:25 | on a table with columns the rows kept are exactly the first occurrences |
| Tables.DropDuplicatesIdempotent | main.py:25 | dropping duplicates twice equals dropping them once |
| Tables.KeepRows | main.py:34 | `df.query` keeps, in order, each selected row as often as it occurred and drops every other row |
| Tables.FindColumnIgnoringCase | main.py:52-56 | the position found is the first label equal to the name ignoring case; none found means no label matches |
| Tables.RenameColumn | main.py:57 | every label equal to the old name becomes the new one; the other labels, the order and the rows are kept |
| Tables.RenameRoundTrip | main.py:57 | renaming to an unused label and back restores the table |
| Tables.ColumnPositions | main.py:70 | the ascending positions whose label is exactly the name |
| Sorting.SortBy | main.py:70 | the result is a permutation of the input, ordered by the key, and rows with equal keys keep their input order |
| Sorting.SortBySorted | main.py:70 | sorting an already sorted sequence changes nothing |
| Values.CellOrderedTotalOrder | main.py:70 | the sort order on cells is reflexive, total, antisymmetric and transitive |
| Tables.SortByColumn | main.py:70 | `sort_values` is a stable permutation of the rows ordered on the column, missing cells last |
| Aggregation.GroupKeys | main.py:79 | the group keys are the present values of the column, each once, ascending |
| Aggregation.AggregateCell | main.py:79-82 | a sum cell is the group's total; a mean cell times the group's count is that total, and is missing exactly for a group with no values |
| Aggregation.GroupBy | main.py:79 | the key column moves first; there is one row per group key, in key order, holding that group's aggregate of each other column |
| Aggregation.GroupByOneRowPerKey | main.py:79 | result keys ascend strictly, each comes from an input row, and each present input key has its row |
| Aggregation.SumConservation | main.py:79 | summing every group's values over a key list that covers the input gives the total of that column over the rows whose key is present |
| Aggregation.GroupSumCells | main.py:79 | each value column of a sum aggregation holds exactly the per-group totals |
| Aggregation.GroupTotalsConserved | main.py:79 | the per-group totals of a column add up to the total of that column over rows with a key |
| Query.FirstMatch | main.py:19-74 | the rule found is the first from its start whose keyword the request contains |
| Query.Classify | main.py:19-86 | a request is not understood exactly when it contains none of the six keywords |
| Query.ClassifyPriority | main.py:19-74 | a request is read as rule n exactly when it contains rule n's keyword and none checked earlier |
| Query.KeywordPresent | main.py:29-74 | a request read as filter, rename, sort or aggregate contains that keyword |
| Query.ReadAsRemoveDuplicates | main.py:19-26 | "remove duplicates" without "remove missing values" is read as de-duplication |
| Query.ReadAsRename | main.py:19-40 | "rename" without any earlier keyword is read as a rename |
| Query.ReadAsSort | main.py:19-65 | "sort" without any earlier keyword is read as a sort |
| Query.ReadAsAggregate | main.py:19-74 | "aggregate" without any other keyword is read as an aggregation |
| Query.Operand | main.py:30-32 | the operand is free of surrounding whitespace and does not contain the keyword |
| Query.OperandBetween | main.py:30-32 | the operand is the stripped text between the end of the first occurrence of the keyword and the next occurrence after it, or the end of the request |
| Query.FilterQuery | main.py:29-37 | the filter succeeds exactly when the condition evaluates; then the table is the `df.query` result on the evaluated condition and the message quotes the condition; on failure the table is unchanged and the message carries the error |
| Query.RenameMatching | main.py:52-60 | the rename succeeds exactly when some label matches ignoring case; the first such label is relabelled and reported under its stored spelling; without a match the table is unchanged and the name is reported |
| Query.RenameQuery | main.py:40-62 | no "to" gives the format message; two or more give the unpacking error; with exactly two pieces, the first label matching the stripped first piece ignoring case is relabelled to the stripped second piece, or that stripped first piece is reported as not found; every refusal keeps the table |
| Query.RenameTooMany | main.py:47 | a second "to" after "rename" gives the unpacking error with the table unchanged |
| Query.RenameFound | main.py:46-58 | with one "to" and a matching column, the first match is relabelled with the stripped new name |
| Query.SortQuery | main.py:65-71 | a missing label, a shared label or a column mixing text and numbers is an error with the table unchanged; the sort succeeds exactly when one column carries the label and its values are comparable, and then the table is the stable sort on that column, descending exactly when the request says "descending" |
| Query.SortKeyMissing | main.py:70 | sorting by a label no column carries is a key error with the table unchanged |
| Query.SortedUnique | main.py:70 | sorting on the only column with a label orders every column carrying that label |
| Query.Requested | main.py:78-83 | "sum" wins over "mean", and naming neither names no aggregation |
| Query.AggregateQuery | main.py:74-83 | without "sum" or "mean" the request is not understood; a missing or shared label, or text outside the grouping column, is an error; the aggregation succeeds exactly when a function is named, one column carries the label and every other present cell is a number, and then the table is the group-by of that column |
| Query.Normalise | main.py:16 | the normalised request holds no capital letter |
| Query.NormaliseInfix | main.py:16 | the normalised request is the lower-cased request with its leading and trailing whitespace cut off |
| Query.NormaliseUnchanged | main.py:16 | a lower-case request without surrounding whitespace is its own normal form |
| Query.Transform | main.py:16-86 | the result stays well-formed and never gains rows; anything but an applied operation leaves the table unchanged |
| Query.TransformIgnoresCase | main.py:16 | a request means the same whatever its letter case |
| Query.Fallback | main.py:86 | a request with no keyword returns the table with the not-understood message |
| Query.NoKeywordNoChange | main.py:86 | a request containing none of the keywords changes nothing |
| Query.DispatchRename | main.py:40-62 | a request read as a rename is handled by the rename rule alone |
| Query.DispatchFilter | main.py:29-37 | a request read as a filter is handled by the filter rule alone |
| Query.DispatchAggregate | main.py:74-83 | a request read as an aggregation is handled by the aggregation rule alone |
| Query.DispatchSort | main.py:65-71 | a request read as a sort is handled by the sort rule alone |
| Query.RemoveMissingFirst | main.py:19-21 | "remove missing values" wins over every other keyword |
| Query.RemoveDuplicatesSecond | main.py:24-26 | "remove duplicates" applies unless "remove missing values" is also present |
| Query.AggregateWithoutFunction | main.py:74-86 | an aggregation naming neither "sum" nor "mean" falls through to the not-understood message |
| Query.FailureReported | main.py:37 | a failed filter and a caught exception are reported as errors |
| Query.SuccessNotReported | main.py:21-86 | no other message reads as an error report |
| Query.ErrorReports | main.py:37-89 | a status text is an error report exactly for a failed filter or a caught exception |
| Query.CleanData | main.py:13-89 | the table stays well-formed, never gains rows, and is returned unchanged whenever the text reports an error |
| Query.CleanDataFallback | main.py:86 | a request with no keyword returns the table and "No valid query found. Please try again." |
| Scenarios.RenameInsideWord | main.py:47 | "rename total to x" is the unpacking error: the "to" inside "total" makes three pieces |
| Scenarios.AggregateWithoutHow | main.py:74-86 | "aggregate region" is not understood and the table is unchanged |
| Scenarios.SortDirectionWord | main.py:65-71 | "sort revenue ascending" looks for a column "revenue ascending" and fails with the table unchanged |
| Scenarios.AggregateFunctionWord | main.py:74-80 | "aggregate Region sum" groups by a column "region sum", so without that label it is a key error with the table unchanged, even when a column "region" exists |
| Scenarios.CaseInsensitiveRename | main.py:52-58 | "Rename MinTemp to Min" finds "MinTemp", but the column becomes "min" |

## Left out

- `load_data` (main.py:5-11) reads CSV or Excel files. This is file I/O.
- The chart builders (main.py:91-125) are Plotly calls with no logic of their own.
- interface.py (the Streamlit UI) and llm.py (GPT-2 text generation) are not part of this
  model. Neither is used by `clean_data`.
- The filter condition language: `df.query` parses and evaluates pandas expressions. It is
  the `Evaluator` parameter, which either selects rows or reports an error text.
- Text.Lower: lower-cases ASCII letters only. Python's `str.lower` also maps non-ASCII
  capitals, which the model leaves unchanged.
- Numbers are exact reals. Integer overflow, float rounding, NaN as a value and dtype
  coercion are not modelled. A missing cell stands for pandas' NaN/None.
- Aggregation.AggregateCell: a mean is specified through its product with the group size,
  not as a floating-point division.
- Query.AggregateQuery: a text cell outside the grouping column makes the whole
  aggregation fail (`NonNumeric`). Pandas 2 concatenates strings under sum.
- Tables.SortByColumn: fixes the stable order. pandas' default quicksort does not promise
  one.
- Column labels are strings. Non-string labels, and the `.lower()` failure they would raise
  in a rename, are not modelled.
- The exception texts in `Fault` (`FaultText`) approximate pandas' and Python's wording.
  Only the "Error processing query: " prefix is relied upon.
- Query.Render: the status texts are given by definition and have no separate
  specification. Their error/non-error split is stated in `ErrorReports`.
- The DataFrame row index is not modelled. `dropna`, `drop_duplicates`, `query` and
  `sort_values` keep each row's index label, and `reset_index` after a group-by replaces it.
  A table here is its column labels and its rows only.
- Query.FilterQuery: the `Evaluator` yields a predicate on a row's contents. It cannot
  express `df.query` conditions on the index or on row position. Nor can it express a
  result that is not a row mask, which would reorder or repeat rows.
- Boolean and date cells have no `Value` constructor. pandas sums booleans as numbers and
  refuses to sum dates. Neither is modelled.
- Query.Transform: does not model exceptions raised by the operations beyond the listed
  `Fault`s, such as a failure inside `df.rename`.
