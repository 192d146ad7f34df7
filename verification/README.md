# NetViz core in Dafny

NetViz (`app.py`) turns a spreadsheet of money transfers into a directed
graph of accounts. This project models the three parts of it that carry
logic:

- **Reading and normalising** (`read_table`, with its nested `find_col`),
  in `normalizer.dfy`. The steps are:
  - check the lower-cased file extension;
  - for CSV files, try the separators `,` `;` space `|` in that order;
  - strip the column labels;
  - find the From, To and optional Amount columns by name, where an exact
    match beats a substring match and the leftmost header wins;
  - keep only those columns, trim the endpoint values, coerce amounts, and
    rename the columns to `From`, `To`, `Amount`.

  The spreadsheet and CSV readers are parameters: an `Option<Frame>` for
  the spreadsheet reader and a function from separator to `Option<Frame>`
  for `pd.read_csv`. `None` means the reader raised.
- **Building the graph** (`to_graph`), in `aggregator.dfy`. The steps are:
  - group the rows by ordered (From, To) pair, with count and sum;
  - skip pairs with a blank endpoint;
  - add one edge per remaining pair, carrying its weight, count, amount
    total and tooltip;
  - store every node's weighted in-degree plus out-degree as its `degree`.

  `TransferGraph` is the `nx.DiGraph`. It holds a set of nodes, a map from
  ordered pair to edge attributes, and a map from node to degree. The
  grouping has two definitions: a one-pass fold, which is the groupby, and
  per-pair reference functions `GroupCount` and `GroupSum`. They are proved
  to agree.
- **Splitting dropped paths** (`App._split_paths`), in `drop_paths.dfy`.
  This is a character-by-character scanner with a buffer, an output list
  and an in-brace flag. `SplitPaths` is the loop. It is proved equal to a
  fold of a one-character `Step`, and the tokenizer's behaviour is proved
  about that fold.

`text.dfy` holds the pieces of Python's string and path behaviour the code
relies on:
- `str.strip` and `str.isspace`;
- `str.lower`, ASCII only;
- `replace(" ", "")` and the substring `in` test;
- `Path.suffix`;
- decimal formatting of integers.

`wrappers.dfy` holds `Option` and `Result`.

Four behaviours of the code are easy to misread, and the model follows the
code in each:
- **Group counts with an Amount column.** The code aggregates with
  `agg(["count", "sum"])`, so with an Amount column `tx_count` counts only
  the rows whose amount is present, and can be 0. `GroupCount` counts
  present amounts when there is an Amount column and all rows otherwise.
- **All-missing amount totals.** pandas sums an all-missing group to 0, so
  `amount_sum` is present and the tooltip carries `; Total amount: 0.00`.
  `GroupSum` is 0 for such a group, and the `amountSum` of the edge is `Some`.
- **Duplicate labels raise.** A selected label that names several columns
  makes `df[col]` a frame, and pandas raises in `.str` or in
  `pd.to_numeric`. That happens when the same header is chosen for two roles
  (a header `FromAmt` is both From and Amount), or when a selected label
  occurs more than once among the stripped headers. The model reports it as
  the error `DuplicateColumns`.
- **Unreadable files.** A reader that raises ends `read_table` with an
  exception. The model reports it as `Unreadable`.

## Model

| member | source | states |
|---|---|---|
| Normalizer.ExactFrom | app.py:58-62 | the first pass returns the first header from `i` on whose lower-cased, space-free key equals a candidate, or None when no header does |
| Normalizer.PartialFrom | app.py:64-67 | the second pass returns the first header from `i` on whose key contains a candidate, or None when none does |
| Normalizer.FindCol | app.py:57-68 | what `find_col` returns is one of the headers |
| Normalizer.Key | app.py:59 | definition of a header's key, lower-cased with spaces removed; used by FindCol |
| Normalizer.ContainsAny | app.py:66 | definition of `any(c in key for c in candidates)`; stated by PartialFrom and FindColNoneIff |
| Normalizer.FindColExactFirst | app.py:57-62 | the leftmost header whose key equals a candidate is returned, even when an earlier header contains a candidate |
| Normalizer.FindColPartialLeftmost | app.py:63-67 | with no exact match, the leftmost header whose key contains a candidate is returned |
| Normalizer.EqualKeyContains | app.py:61-66 | a key equal to a candidate also contains it, so the exact pass only reorders preference |
| Normalizer.FindColNoneIff | app.py:57-68 | `find_col` gives None exactly when no header key contains a candidate; a found header contains one and is never empty |
| Normalizer.NonEmptyMatch | app.py:66 | a header whose key contains a non-empty token is not empty |
| Normalizer.InfixShorter | app.py:66 | a string contained in another is no longer than it |
| Normalizer.StripAll | app.py:54 | every label keeps its place and becomes the piece of itself left between whitespace-only ends, with no whitespace at either end |
| Normalizer.IndexOf | app.py:82 | selecting a label picks the first column carrying it |
| Normalizer.Found | app.py:74 | definition of the truthiness of `find_col`'s answer; FindColNoneIff shows it is Some |
| Normalizer.Keep | app.py:79-81 | definition of the kept labels; stated by ResolveSuccess |
| Normalizer.CanonicalColumns | app.py:90-94 | definition of the renamed columns `From`, `To` and, with an amount column, `Amount`; stated by NormalizeSuccess |
| Normalizer.Ambiguous | app.py:82-88 | definition of a selection pandas raises on; stated by ResolveSuccess, ResolveAmountDistinct, SharedHeaderFails and NarrowHeadersFail |
| Normalizer.Resolve | app.py:70-82 | on success the resolved From, To and Amount positions are columns of the frame |
| Normalizer.Project | app.py:79-88 | definition of `df[keep]` with trimmed endpoints and coerced amounts; stated by NormalizeSuccess |
| Normalizer.Normalize | app.py:53-94 | definition of everything after reading; stated by NormalizeMissingColumns, ResolveSuccess and NormalizeSuccess |
| Normalizer.NormalizeMissingColumns | app.py:70-76 | normalising fails with MissingColumns exactly when From or To is not found; Amount never causes it; the only normalisation errors are MissingColumns and DuplicateColumns |
| Normalizer.ResolveSuccess | app.py:70-82 | on success the From and To roles are the headers `find_col` chose, they are different columns with different labels, each label occurs once, and Amount is resolved exactly when `find_col` found it |
| Normalizer.ResolveAmountDistinct | app.py:72-88 | on success a found Amount label occurs once among the headers and is neither the From nor the To label |
| Normalizer.SharedHeaderFails | app.py:79-88 | when one header is chosen for two roles (From and To, From and Amount, or To and Amount) normalising fails with DuplicateColumns |
| Normalizer.CountTwo | app.py:79-82 | counting a label in a list that starts with two labels counts those two, then the rest |
| Normalizer.CountThree | app.py:79-82 | counting a label in a three-label list counts each of the three |
| Normalizer.CountPositive | app.py:82 | a label that occurs among the headers is counted at least once |
| Normalizer.NormalizeSuccess | app.py:79-94 | on success the columns are exactly From, To and Amount when found; there is one row per input row; From/To values are the stripped cell texts; the amount is the coerced Amount cell, absent without an Amount column |
| Normalizer.NarrowFrameFails | app.py:74-82 | a frame with fewer than two columns never normalises |
| Normalizer.NarrowHeadersFail | app.py:74-82 | with fewer than two headers, From and To cannot be two distinct columns |
| Normalizer.CsvFrameFirstWide | app.py:41-51 | the CSV frame is that of the first separator, in the order `,` `;` space `|`, that yields two or more columns, else the default reading |
| Normalizer.CsvFallbackFails | app.py:50-51 | when no separator yields two columns, the fallback reading cannot normalise |
| Normalizer.Wide | app.py:44-45 | definition of a CSV reading that did not raise and has two or more columns |
| Normalizer.CsvFrame | app.py:41-51 | definition of the separator search's frame; stated by CsvFrameFirstWide and ChooseCsvFrame |
| Normalizer.ChooseCsvFrame | app.py:41-51 | the separator loop returns exactly the frame `CsvFrame` describes |
| Normalizer.LoadErrors | app.py:36-94 | reading plus normalising fails only as Unreadable, MissingColumns or DuplicateColumns |
| Normalizer.Load | app.py:36-94 | definition: a reader that raised gives Unreadable, otherwise the frame is normalised; stated by LoadErrors and ReadTable |
| Normalizer.Extension | app.py:28-29 | definition of `Path(path).suffix.lower()`; stated by ReadTable with FileName and Suffix |
| Normalizer.ReadTable | app.py:24-94 | UnsupportedFormat exactly when the lower-cased suffix is not supported; `.ods`, `.xlsx` and `.xls` load the spreadsheet reading; `.csv` loads the separator search's frame |
| Normalizer.SupportedCases | app.py:31-39 | an extension is supported exactly when it is `.ods`, `.xlsx`, `.xls` or `.csv`, and only `.csv` takes the CSV branch |
| Aggregator.GroupConcat | app.py:103-106 | group counts and sums of two row blocks add up |
| Aggregator.HasAmount | app.py:101 | definition of `"Amount" in df.columns` |
| Aggregator.KeyOf | app.py:103 | definition of a row's groupby key, the ordered pair (From, To); stated by GroupFoldTotals and ExpectedEdge |
| Aggregator.KeysOf | app.py:103-106 | definition of the set of groups, the pairs occurring in the rows; stated by GroupFoldTotals and ExpectedEdge |
| Aggregator.RowCount | app.py:103-106 | definition of what a row adds to its group's count; stated by GroupFoldTotals |
| Aggregator.RowAmount | app.py:103 | definition of what a row adds to its group's sum; stated by GroupFoldTotals |
| Aggregator.GroupCount | app.py:103-106 | reference definition of a group's `tx_count`; stated by GroupCountRows and GroupPermutation |
| Aggregator.GroupSum | app.py:103 | reference definition of a group's `amount_sum`; stated by GroupPermutation |
| Aggregator.AddRow | app.py:103-106 | definition of one row's step of the groupby; stated by GroupFoldTotals |
| Aggregator.GroupFold | app.py:101-107 | definition of the groupby as a fold; stated by GroupFoldTotals |
| Aggregator.Grouped | app.py:101-107 | definition of the grouped frame; stated by GroupFoldTotals, GroupedPermutation and ExpectedEdge |
| Aggregator.GroupOutside | app.py:103-106 | a pair no row carries has count 0 and sum 0 |
| Aggregator.GroupFoldTotals | app.py:101-107 | the groupby's groups are exactly the pairs occurring in the rows, each with count `GroupCount` and sum `GroupSum` |
| Aggregator.GroupRemove | app.py:103-106 | taking one row out of a block takes its contribution out of the count and the sum |
| Aggregator.RemoveMatching | app.py:103-106 | removing matching rows from two permutations of each other leaves permutations |
| Aggregator.GroupPermutation | app.py:103-106 | a group's count and sum do not depend on row order |
| Aggregator.GroupedPermutation | app.py:101-107 | permuting the rows gives the same grouped frame |
| Aggregator.ExpectedEdge | app.py:101-129 | there is an edge for an ordered pair iff some row carries that pair and neither end is blank; weight and `tx_count` are the group count, `amount_sum` is the group sum when there is an Amount column and absent otherwise, and the title is built from those values |
| Aggregator.Kept | app.py:114 | definition of the blank-endpoint filter, by StripEmptyIff the same as `str(x).strip() == ''` |
| Aggregator.Fixed2 | app.py:121 | definition of `:.2f` on a whole number |
| Aggregator.Title | app.py:119-121 | definition of the tooltip; stated by ExpectedEdge and AddGroup |
| Aggregator.EdgeFor | app.py:123-129 | definition of an edge's attributes; stated by ExpectedEdge |
| Aggregator.EdgesFor | app.py:112-129 | definition of the edges for a set of groups; stated by EdgesForStep |
| Aggregator.Expected | app.py:101-129 | definition of the edges `to_graph` builds; stated by ExpectedEdge and ToGraph |
| Aggregator.Endpoints | app.py:116-117 | definition of the endpoints of a set of edges; stated by EndpointsAdd and NodesNotBlank |
| Aggregator.NodesNotBlank | app.py:114-117 | no node of the graph is a blank string |
| Aggregator.GroupCountRows | app.py:106 | without an Amount column a group's count is the number of rows carrying its pair |
| Aggregator.SumWeightPeel | app.py:133 | a weighted-degree sum may take any one of its edges out first |
| Aggregator.SumWeightFrame | app.py:133 | a weighted-degree sum depends only on the weights of the edges summed |
| Aggregator.SumWeight | app.py:133 | definition of a weight total; stated by SumWeightPeel and SumWeightFrame |
| Aggregator.InWeight | app.py:133 | definition of `in_degree(n, weight='weight')` |
| Aggregator.OutWeight | app.py:133 | definition of `out_degree(n, weight='weight')` |
| Aggregator.Degree | app.py:133 | definition of the degree attribute; stated by SelfLoopCountsTwice and WeightedDegree |
| Aggregator.SelfLoopCountsTwice | app.py:131-134 | a self-loop's weight counts twice in its node's degree |
| Aggregator.TransferGraph.constructor | app.py:99 | a new graph has no nodes, no edges and no degrees |
| Aggregator.TransferGraph.AddNode | app.py:116-117 | adds a node and changes nothing else |
| Aggregator.TransferGraph.AddEdge | app.py:123-129 | adds both endpoints and sets the ordered pair's attributes, replacing any earlier ones |
| Aggregator.TransferGraph.SetDegree | app.py:134 | sets one node's degree attribute |
| Aggregator.TransferGraph.SideWeight | app.py:133 | the loop computes the summed weight of the node's incoming (or outgoing) edges |
| Aggregator.TransferGraph.WeightedDegree | app.py:133 | the degree is the weighted in-degree plus the weighted out-degree |
| Aggregator.TransferGraph.SetDegrees | app.py:131-134 | every node ends with its weighted degree, and nodes and edges are unchanged |
| Aggregator.EdgesForStep | app.py:112-129 | handling one more group adds its edge exactly when its pair is kept |
| Aggregator.EndpointsAdd | app.py:116-117 | adding an edge adds its two endpoints to the node set |
| Aggregator.AddGroup | app.py:113-129 | one kept group adds its two endpoints and its edge with weight, count, total and tooltip |
| Aggregator.AddGroups | app.py:112-129 | the loop over groups builds exactly the edges of the kept groups, whose endpoints are the nodes |
| Aggregator.ToGraph | app.py:97-136 | the graph's edges are exactly the expected ones, its nodes exactly their endpoints, each node's degree its weighted in- plus out-degree; no rows give the empty graph |
| DropPaths.RunConcat | app.py:228-242 | scanning `a + b` is scanning `a` and then `b` |
| DropPaths.Step | app.py:229-241 | definition of one character of the scan; stated by SplitCloseBrace, SplitSpaceJoin and Accumulate |
| DropPaths.Run | app.py:228-241 | definition of the scan; stated by RunConcat and RunPrefix |
| DropPaths.Finish | app.py:242-244 | definition of the trailing flush |
| DropPaths.Split | app.py:222-244 | definition of the result; stated by SplitPaths and the Split lemmas |
| DropPaths.RunSnoc | app.py:228-242 | scanning one more character is one more step |
| DropPaths.RunPrefix | app.py:228-242 | the scan only appends to the tokens already emitted |
| DropPaths.SplitPaths | app.py:222-244 | the loop returns exactly `Split(raw)` |
| DropPaths.RunClean | app.py:229-241 | a brace never enters the buffer or the output |
| DropPaths.SplitNoBraces | app.py:229-244 | no returned path contains a brace |
| DropPaths.RunNoEmpty | app.py:236-241 | characters other than `}` never emit an empty token |
| DropPaths.SplitNoEmpty | app.py:236-243 | with no `}` in the input no empty path is returned: runs of spaces and an empty trailing buffer emit nothing |
| DropPaths.Accumulate | app.py:240-241 | characters that end no token are appended to the buffer verbatim, spaces included inside braces |
| DropPaths.SplitSpaceJoin | app.py:236-239 | outside braces, a space splits the input into two independently split halves |
| DropPaths.SplitCloseBrace | app.py:232-235 | `}` emits its buffer, even an empty one, and resumes outside braces |
| DropPaths.SplitBraced | app.py:229-235 | a braced path is one token with its spaces kept, and the buffer before `{` is dropped |
| DropPaths.SplitWord | app.py:240-244 | a single path without spaces or braces is returned unchanged |
| Text.TrimStart | app.py:54 | leading whitespace is removed: the result is a suffix, starts with a non-space, and everything dropped is whitespace |
| Text.TrimEnd | app.py:54 | trailing whitespace is removed: the result is a prefix, ends with a non-space, and everything dropped is whitespace |
| Text.Strip | app.py:54 | the result is the piece of the input left once whitespace-only runs are cut off at both ends, and it has no whitespace at either end |
| Text.TrimmedFrom | app.py:54 | definition of "a piece of `s` with whitespace only around it"; used by Strip and StripAll |
| Text.AllSpace | app.py:114 | definition of an all-whitespace string; StripEmptyIff ties it to `strip() == ''` |
| Text.IsSpace | app.py:54 | definition of Python's `str.isspace()` for one character; used by Strip |
| Text.Lower | app.py:59 | definition of ASCII lower-casing |
| Text.StripIdempotent | app.py:85-86 | stripping twice is stripping once |
| Text.StrippedIsFixed | app.py:85-86 | a stripped string is left unchanged by stripping |
| Text.StripEmptyIff | app.py:114 | a string strips to empty exactly when it is all whitespace |
| Text.TrimStartAllSpace | app.py:114 | an all-whitespace string loses everything to the leading trim |
| Text.RemoveSpaces | app.py:59 | the key has no spaces left and is no longer than the name; RemoveSpacesConcat and RemoveSpacesChar say which characters it keeps |
| Text.RemoveSpacesConcat | app.py:59 | removing spaces from a concatenation removes them from each part |
| Text.RemoveSpacesChar | app.py:59 | a space is dropped and every other character is kept |
| Text.InfixAt | app.py:66 | a string occurring at some position of another is found by the `in` test |
| Text.InfixHasPos | app.py:66 | a string the `in` test finds occurs at some position, within bounds |
| Text.IsInfix | app.py:66 | definition of `t in s`; stated by InfixAt and InfixHasPos |
| Text.RFind | app.py:28-29 | the last position of a character, or none |
| Text.FileName | app.py:28 | the name is the whole tail of the path after its last `/` (the whole path when there is none), and contains no `/` |
| Text.Suffix | app.py:29 | the suffix is empty exactly when the last dot of the name is missing, first or last; otherwise it is the tail from that dot |
| Text.DigitChar | app.py:119 | a digit value maps to a decimal digit character |
| Text.NatToString | app.py:119 | the decimal form of a count is digits with no leading zero |
| Text.NatToStringRoundTrip | app.py:119 | reading back a count's decimal form gives the count |
| Text.IntToString | app.py:121 | the decimal form starts with `-` exactly for negative numbers |

## Left out

- The Tk window, file dialog, drag-and-drop events, status messages and
  message boxes (`App`, apart from `_split_paths`). They are UI plumbing.
  So is `process`'s empty-graph error.
- The Windows DPI call. It is a foreign call.
- `render_pyvis`. It is HTML rendering and opening a browser.
- The actual parsing inside `pd.read_excel` and `pd.read_csv`. The model
  takes the frame a reader returns (or its failure) as a parameter.
- Amounts are integers. Floating-point parsing, summation and rounding are
  not modelled.
  - `pd.to_numeric(..., errors='coerce')` is each cell's optional `number`,
    given with the cell.
  - `:.2f` is the integer's digits followed by `.00`.
  - `weight=float(...)` is the integer count.
- The `astype(str)` rendering of missing cells as the string `nan`. Each
  cell carries its text as given.
- NaN endpoints. After `astype(str)` endpoints are strings, so the
  `pd.isna` tests in `to_graph` never hold and are not modelled.
- `str.lower` beyond ASCII. The tokens and extensions compared against are
  ASCII, and lower-casing only ASCII gives the same verdicts except for the
  Kelvin sign and the dotted capital I. Neither can produce the compared
  tokens.
- `Path` handling of Windows separators, trailing slashes and `.`
  components. The name is the text after the last `/`.
- The order of groups and nodes. Groups come in pandas' sorted order and
  nodes in networkx insertion order. The graph is a set of nodes and maps
  keyed by ordered pair, so order cannot be observed. Attribute values do
  not depend on order.
- Aggregator.TransferGraph.SetDegrees: the degrees are stored as the loop
  computes them, but in no particular node order, since node order is not
  modelled.
