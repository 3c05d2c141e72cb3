# dataframe: a verified model of the table core

`dataframes.c` is a small C extension that gives Python a string-only data
frame. A table is a list of column headers plus a list of rows, and each row
is a list of text cells. The empty string marks a missing cell. The model
covers how tables are stored and built: `createDataFrame`, `addRow`, and the
`strtok` tokenizer of `loadCSV`. It also covers the operations that select or
rewrite cells: `head`, `tail`, `sample`, `shape`, `size`, `isnull`/`isna`,
`fillna`, `clip`, `sort_values`, `value_counts`, `nsmallest` and `nlargest`.
Every ordering of texts in the source uses `strcmp`, and the model uses the
corresponding lexicographic order on strings. The emptiness tests of
`isnull` and `fillna` look only at the first byte, and `value_counts`
matches texts by Python dictionary lookup; both amount to text equality.

Modules, in dependency order:

- `Lex` (lex.dfy): `strcmp` as `Compare`, with the laws of a total order.
- `Sorting` (sorting.dfy): a reference sort by a string key. It stands for
  what the C library's `qsort` returns, a permutation that ascends by key. It
  also proves that an ascending permutation of strings is unique.
- `Frames` (frames.dfy): the `DataFrame` datatype, errors, `createDataFrame`,
  `addRow`, `shape`, `size`, column extraction and `sample`.
- `Csv` (csv.dfy): the `strtok` tokenizer and `loadCSV`, both as written and
  corrected, with a write-then-read round trip.
- `Queries` (queries.dfy): `head`, `tail`, `isnull`, `value_counts`,
  `nsmallest` and `nlargest`.
- `Mutations` (mutations.dfy): `fillna`, `clip` and `sort_values`. The
  source rewrites these in place; here each returns a new table.

The source never checks a column index. Every column operation therefore
requires `col < NumCols()`. Where the source fails or has undefined
behaviour, the model returns an error value:

- `loadCSV` with no header line gives `IoError`. In the source this is a
  reported failure: `loadCSV` prints the error and returns NULL (lines
  134-147), and `py_loadCSV` passes the NULL on to Python (lines 265-266).
- A negative result length in `nsmallest`/`nlargest` gives `NegativeCount`.
  In the source this is a failure too: `PyList_New(n)` returns NULL, the
  copying loop does not run, and the NULL is returned to Python (lines 618
  and 646).
- A CSV data line with the wrong number of fields gives
  `ShapeMismatch(line)`. In the source this is undefined behaviour.
- `sample` on a table with no rows gives `EmptyTable`. In the source this is
  undefined behaviour, a remainder by zero.

## Model

| member | source | states |
|---|---|---|
| Lex.Compare | dataframes.c:563-567 | `strcmp`'s sign: the result is -1, 0 or 1, and 0 exactly when the two texts are equal |
| Lex.FirstDifferenceDecides | dataframes.c:563-567 | after a common prefix, the first differing characters decide the order whatever follows, as `strcmp` compares byte by byte |
| Lex.CompareAntisymmetric | dataframes.c:589 | swapping the arguments of `strcmp` negates the result |
| Lex.CompareTransitive | dataframes.c:589 | the `strcmp` order is transitive, so sorting and clamping by it are well defined |
| Lex.Total | dataframes.c:563-567 | any two texts are comparable, and "not below" means "at or above" |
| Lex.Antisymmetric | dataframes.c:589 | two texts each at most the other are equal |
| Lex.EmptyIsLeast | dataframes.c:507 | the empty text, the missing-cell marker, sorts below every other text |
| Lex.PrefixIsLess | dataframes.c:563 | a proper prefix sorts strictly first, as `strcmp` stops at the shorter text's terminator |
| Sorting.SortBy | dataframes.c:615 | the sorted column `qsort` should produce: same length, same multiset, ascending by key |
| Sorting.SortedPermutationUnique | dataframes.c:643 | two ascending permutations of the same texts are identical, so the result does not depend on the sorting algorithm |
| Frames.Create | dataframes.c:72-89 | `createDataFrame(r, c)` has r rows of exactly c cells, every cell empty, shape (r, c) and size r*c |
| Frames.AddRow | dataframes.c:108-116 | `addRow` appends exactly one row equal to `values`; earlier rows, headers and the column count are unchanged, and the table stays rectangular |
| Frames.AddRowShape | dataframes.c:108-116 | `addRow` raises the row count of `shape` by one and `size` by one row's cells |
| Frames.Shape | dataframes.c:410-411 | `shape` is (number of rows, number of columns), and the product of the two is `size` |
| Frames.Size | dataframes.c:425 | `size` is rows times columns, and on a rectangular table that is exactly the number of stored cells |
| Frames.CellCountOfRectangle | dataframes.c:79-87 | rows that all hold w cells store w cells per row |
| Frames.Column | dataframes.c:610-612 | the extracted column has one entry per row, and entry i is row i's cell |
| Frames.Sample | dataframes.c:332 | `sample` fails exactly on a table with no rows; otherwise it returns one of the table's rows |
| Frames.SampleReachesEveryRow | dataframes.c:332 | every row is the sample for some random number |
| Csv.Tokens | dataframes.c:173-178 | every `strtok` token is non-empty and comma-free |
| Csv.TokensOfJoin | dataframes.c:173-178 | tokenizing comma-joined, non-empty, comma-free fields gives back exactly those fields |
| Csv.TokensSplit | dataframes.c:173-178 | a comma splits the text: the tokens of a, comma, b are the tokens of a followed by the tokens of b |
| Csv.TokensSkipComma | dataframes.c:173 | a leading comma yields no token |
| Csv.TokensTrailingComma | dataframes.c:177 | a trailing comma yields no token |
| Csv.TokensCommaRun | dataframes.c:173-178 | two adjacent commas act as one; no empty token is produced |
| Csv.TokensOfLine | dataframes.c:150-154 | tokenizing a written line with its newline gives its fields, with the newline on the last one |
| Csv.HeaderFields | dataframes.c:149-154 | the header line gives exactly as many column names as `strtok` finds tokens on it with the newline attached |
| Csv.HeaderFieldsOfLine | dataframes.c:149-154 | a written header line gives back its column names |
| Csv.BlankHeaderIsOneColumn | dataframes.c:149-154 | a header line holding only its newline counts as one column, so loading it gives one empty-named column and no rows |
| Csv.HeaderCountWithNewline | dataframes.c:149-154 | counting the header tokens with the newline still attached still counts one token per field |
| Csv.StripNewline | dataframes.c:168 | cutting at the first newline yields the longest newline-free prefix of the line |
| Csv.StripTerminatedLine | dataframes.c:168 | a newline-terminated line is cut back to its text |
| Csv.AppendRows | dataframes.c:166-189 | appending data rows succeeds exactly when each has the column count, keeps the headers and appends the rows in file order; otherwise it names a line whose count differs |
| Csv.LoadCsv | dataframes.c:133-193 | corrected `loadCSV`: no header line is an I/O error and every other failure is a line-numbered shape mismatch; the column count is the header line's token count, as in the source, and the names are those tokens; row i is data line i's tokens; success exactly when every data line has that many fields |
| Csv.LoadCsvRoundTrip | dataframes.c:133-193 | loading the CSV text of any rectangular table with plain cells and at least one column gives back the same table |
| Csv.LoadCsvExample | dataframes.c:133-193 | loading `a,b,c` / `1,2,3` / `4,5,6` gives columns a, b, c, shape (2, 3) and first row 1, 2, 3 |
| Csv.LoadCsvAsWritten | dataframes.c:133-193 | `loadCSV` as written: the column count is the header line's token count, no header is ever set (each is the empty string in the model), row i is data line i's tokens, and the load succeeds exactly when every data line has that many fields |
| Csv.LoadCsvAsWrittenLosesHeaders | dataframes.c:149-163 | read as written, a CSV text comes back with the right rows but all column names empty, unlike the corrected load |
| Queries.Clamp | dataframes.c:287 | the number of rows `head(n)` visits: 0 for n <= 0, n up to the row count, then the row count |
| Queries.Head | dataframes.c:287 | `head(n)` selects rows 0 .. min(n, num_rows) - 1 in order, with the same headers |
| Queries.Tail | dataframes.c:312-314 | `tail(n)` selects the last min(n, num_rows) rows in order, starting at max(0, num_rows - n) |
| Queries.HeadTailSplit | dataframes.c:287-314 | `head(k)` followed by `tail(num_rows - k)` is the whole table |
| Queries.HeadTailBounds | dataframes.c:312-314 | n at or above the row count selects every row; n <= 0 selects none |
| Queries.IsNull | dataframes.c:482-488 | `isnull` has the table's shape, and entry (i, j) is true exactly when cell (i, j) is empty |
| Queries.CreateIsAllNull | dataframes.c:482-488 | on a fresh `createDataFrame` table, `isnull` is true everywhere |
| Queries.SumCountsIncrement | dataframes.c:542-546 | counting one more occurrence raises the sum of the counts by one |
| Queries.ValueCounts | dataframes.c:538-547 | the keys are exactly the column's values, each count is that value's number of occurrences, and the counts sum to num_rows |
| Queries.NSmallest | dataframes.c:637-649 | `nsmallest(n)` with its comparator fixed to compare texts fails exactly for n < 0; otherwise it gives min(n, num_rows) texts from the column, ascending, none above any text left out |
| Queries.NSmallestAnySort | dataframes.c:643-649 | any ascending arrangement of the column gives the same `nsmallest` answer |
| Queries.NLargestAsWritten | dataframes.c:609-621 | `nlargest` as written, comparator included, returns exactly what the as-written `nsmallest` returns, for every placement of the cells in memory |
| Queries.NLargestAscending | dataframes.c:609-621 | `nlargest` with its comparator fixed to compare texts but its ascending direction kept returns exactly what `nsmallest` returns |
| Queries.NLargestDescending | dataframes.c:61 | the documented `nlargest`: min(n, num_rows) texts from the column, descending, none below any text left out |
| Queries.NLargestCounterexample | dataframes.c:615-620 | on the column a, b, `nlargest(1)` with the comparator fixed but the direction as written answers a, while the largest text is b |
| Queries.NLargestAsWrittenCounterexample | dataframes.c:615-620 | for the column a, b whose slot bytes put a's slot first, `nlargest(1)` as written answers a, while the largest text is b |
| Queries.NSmallestAsWritten | dataframes.c:643-649 | `nsmallest` as written, ordering pointer slots by their bytes: still min(n, num_rows) texts from the column, taken without duplication (as a sub-multiset of the column), but in no text order |
| Queries.NSmallestAsWrittenCounterexample | dataframes.c:643 | for the column b, a whose slot bytes put b's slot first, the as-written `nsmallest(1)` answers b, where the smallest text is a |
| Mutations.FillNa | dataframes.c:505-511 | `fillna(v)` turns every empty cell into v and leaves every other cell and the shape unchanged |
| Mutations.FillNaIdempotent | dataframes.c:505-511 | filling twice with the same value is filling once |
| Mutations.FillNaClearsNulls | dataframes.c:505-511 | after `fillna` with a non-empty value, `isnull` is false everywhere; `fillna("")` changes nothing |
| Mutations.Clip | dataframes.c:561-573 | `clip(lower, upper)`: a cell below lower becomes lower; otherwise a cell above upper becomes upper; otherwise it is kept; the shape is unchanged |
| Mutations.ClipBounds | dataframes.c:561-573 | with lower <= upper, every clipped cell lies between the bounds, and a cell already between them is unchanged |
| Mutations.ClipIdempotent | dataframes.c:561-573 | with lower <= upper, clipping twice is clipping once |
| Mutations.ClipFillsMissing | dataframes.c:563-566 | with a non-empty lower bound at most the upper one, no cell is missing after `clip` |
| Mutations.ClipExample | dataframes.c:561-573 | clipping the column a, m, z to [b, y] gives b, m, y |
| Mutations.SwapKeepsWithKey | dataframes.c:589-593 | exchanging neighbours whose keys differ keeps every key's subsequence of rows |
| Mutations.SwapStep | dataframes.c:588-593 | an exchange within the unsorted front moves the largest row so far one step further and keeps the sorted back |
| Mutations.SortValues | dataframes.c:587-595 | `sort_values(col)` returns a permutation of the rows that ascends in column col and is stable: the rows with each key keep their relative order |
| Mutations.StableSortUnique | dataframes.c:587-595 | two orderings that both ascend in col and keep every key's rows in order are identical, so the stable sort's result is unique |

## Left out

- File I/O: `fopen`, `fgets`, `rewind`, `fclose` and `perror` are not modelled. `Csv.LoadCsv` takes the file as its sequence of newline-terminated lines. An unopenable or empty file is the single error `IoError`.
- The 4096-byte `fgets` buffer is not modelled. In the source, a longer line is read in several pieces, each treated as a line; the model takes whole lines.
- Memory management is not modelled: `malloc`/`realloc`/`free`, `freeDataFrame`, the 256-byte cell and header buffers, and the unchecked `strcpy` in `fillna`. That copy overflows whenever the value is longer than the cell's buffer: a cell made by `createDataFrame` has 256 bytes, but one copied in by `addRow` has only its length plus one, so filling an empty cell that `addRow` stored with any non-empty value writes past it. Cells are unbounded strings.
- Printing is not modelled: the `printf` output of `printDataFrame`, `head`, `tail`, `sample`, `unique`, `info` and `describe`. `head`, `tail` and `sample` are modelled as the rows they select.
- The Python binding is not modelled: argument parsing, capsules, the list/dict/tuple construction, the method table and module initialisation. The binding's default `n = 5` for `head` and `tail` is left to the caller.
- `isna` is only an alias of `isnull`; `Queries.IsNull` models both.
- `columns` has no model of its own: it returns the headers, which is the `headers` field.
- `ndim`, `dtypes`, `info`, `describe` and `unique` have no model. They print, or return constants such as ndim 2, "string" for each column, and a missing count of 0. `unique` prints every cell of the column without removing duplicates.
- Frames.Size: does not model the C `int` overflow of `num_rows * num_cols`, because sizes are unbounded here.
- Frames.Create: row and column counts are `nat`. Negative C sizes, where the source's allocation fails, are not modelled.
- Frames.AddRow: requires exactly `NumCols()` values. The source copies `num_cols` values from the array it is given, whatever its length.
- Frames.Sample: the C library's `rand()` is the parameter `rand`. On an empty table, where the source divides by zero, the model returns `EmptyTable`.
- Frames.SampleReachesEveryRow: holds because `rand` ranges over all naturals. `rand()` returns at most `RAND_MAX`, which may be as small as 32767, so on a table with more rows than that the source never samples the later rows.
- Queries.Tail: does not model the C `int` overflow of `num_rows - n`. For n near `INT_MIN` the subtraction overflows (undefined behaviour; on two's complement it wraps negative, the start is clamped to 0 and every row is printed), while the model selects no rows for every negative n.
- Csv.LoadCsv: a data line whose token count differs from the header's is undefined behaviour in the source. With fewer tokens, `addRow` reads unset pointers; with more, the tokenizer writes past its array. The model rejects such a line with `ShapeMismatch(line)`. It does not pad short rows with empty cells: padding would invent cells the code never creates. As a consequence, a missing cell cannot come from a CSV file: `strtok` merges adjacent commas.
- Csv.LoadCsvAsWritten: shares the `ShapeMismatch` decision above.
- Csv.LoadCsvRoundTrip: requires at least one column. A table without columns is written as a header line holding only its newline, which the source reads as one column (`Csv.BlankHeaderIsOneColumn`), so such a table does not come back.
- Queries.NSmallest: for n > num_rows, the source allocates n result slots and leaves the extra ones unset. The model returns the min(n, num_rows) values that were set. For n < 0, the result list cannot be allocated, which the model reports as `NegativeCount`.
- Queries.NSmallestAsWritten: states only the result's length and that its values are a sub-multiset of the column. The actual order depends on heap addresses, which the model takes as the parameter `slotBytes`.
- `qsort` internals are not modelled: its result is specified as an ascending permutation (`Sorting.SortBy`). The three findings below are modelled on both sides.
- Queries.ValueCounts: the source's dictionary lists its keys in order of first occurrence in the column. The model's `map` has no order, so that order is not stated.
- Cells are sequences of characters. `strcmp` compares UTF-8 bytes, and UTF-8 byte order equals code-point order, so the lexicographic `Compare` agrees with it. A cell never holds a NUL character.

## Findings

| source | as written | input that shows it | evidently intended | confidence | as-written member | corrected member |
|---|---|---|---|---|---|---|
| dataframes.c:149-163 | the header tokens are only counted; `df->headers` is never filled, so every column name is an uninitialised 256-byte buffer (the empty string in the model) | a file `a,b,c` / `1,2,3` loads with no column names: headers "", "", "" in the model | headers a, b, c from the first line | high; not executed | Csv.LoadCsvAsWrittenLosesHeaders | Csv.LoadCsvRoundTrip |
| dataframes.c:615 | `nlargest` sorts ascending and keeps the front, exactly like `nsmallest` | column a, b with a's entry at the lower slot bytes: `nlargest(1)` gives a | the largest values, in descending order: b | high; not executed | Queries.NLargestAsWrittenCounterexample | Queries.NLargestDescending |
| dataframes.c:643 | `strcmp` is handed to `qsort` as the comparator, so it receives the addresses of two `char*` entries and compares the bytes of the stored pointers, not the cell texts | column b, a whose row-0 pointer bytes compare below row 1's: `nsmallest(1)` gives b | the texts in ascending `strcmp` order: a | high; not executed | Queries.NSmallestAsWrittenCounterexample | Queries.NSmallest |

For the first finding, `Csv.LoadCsvAsWritten` models the load as written, and the corrected `Csv.LoadCsv` stores the header tokens. For the second, `Queries.NLargestAsWritten` is the as-written function, and it equals the as-written `nsmallest` for every memory placement. `Queries.NLargestAscending` and `Queries.NLargestCounterexample` separate the direction defect from the comparator defect: with the comparator fixed, `nlargest` still returns the smallest texts. For the third, `Queries.NSmallestAsWritten` is the as-written function. The same comparator is passed to `qsort` in `nlargest` (line 615). `Queries.NSmallestAnySort` shows that, once the comparator compares texts, any correct sort gives `Queries.NSmallest`'s answer.
