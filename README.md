# Sorting benchmark (hometask3.py), modelled in Dafny

`hometask3.py` benchmarks four sorts on three kinds of data and prints the
median times as a Markdown table:

- the sorts: insertion sort, merge sort, and Python's built-in sort called
  two ways (`sorted(arr)` and `arr.sort()`);
- the data: random, already sorted, and reversed integer lists;
- the sizes: given on the command line;
- a cost guard: insertion sort is skipped above `--max-insertion`;
- the results are sorted by `(case, n, algorithm)` before they are printed.

This project models that script and proves properties of the model:

- `Sorting`: the three sorting algorithms and the contract of the library
  sort. Each sort is proved to be a stable sort: its output is sorted,
  holds the same elements (a permutation) and keeps equal elements in
  their original order. Any two stable sorts give the same list
  (`StableSortUnique`), so the built-in sort is specified as that list.
  The copying sorts leave their argument alone; `timsort_sort` sorts the
  caller's array and returns that same array.
- `Generators`: `gen_sorted` and `gen_reversed`, their exact contents, and
  what sorting them gives.
- `Text`: the Python string operations the script relies on: `str.split`,
  `str.strip`, `int()`, `str(int)`, `str.ljust`, the `.6f` float format
  and string comparison.
- `Table`: `result_table` with `fmt` and `format_row`. The model includes
  the `IndexError` it raises when a row's cell count differs from the
  number of headers, whether the row has too many cells or too few. For
  rectangular input it proves:
  - the table has `len(rows) + 2` lines, all of one width
    (`4 + sum(widths) + 3*(k-1)`);
  - the `|` bars are aligned;
  - each column holds its left-justified cells.
- `Benchmark`: `main` and `bench_median`:
  - parsing `--sizes`;
  - the loops over cases, sizes and algorithms, with the cost guard;
  - the `StatisticsError` raised when there are no repeats;
  - the final sort;
  - the report.

  The clock and the random generator are parameters.
- `Results`: `Option` and `Result`, which stand for the exceptions the
  Python code raises.

The integer sorts use `IntLe` (`<=`) as their comparison. The final sort of
`main` uses `RowLe`, the lexicographic order on `(case, n, algorithm)`.
Python's `a[j] > key` is `!le(a[j], key)`, and `left[i] <= right[j]` is
`le(left[i], right[j])`.

## Model

| member | source | states |
|---|---|---|
| Sorting.InsertionSort | hometask3.py:5-21 | returns a new array holding `InsertionSorted` of the input; the caller's array is not modified |
| Sorting.InsertAt | hometask3.py:15-20 | one pass of the shifting loop: the prefix `a[..i+1]` becomes the sorted prefix with `key` inserted after every element not greater than it; the rest of the array is unchanged |
| Sorting.ShiftGreater | hometask3.py:16-19 | the `while` loop shifts every element of the prefix greater than `key`, from the right, one place right, stops at the first element not greater than `key` (or runs off the front), and leaves the rest of the array alone |
| Sorting.InsertPlaces | hometask3.py:17-20 | where the loop stops decides the insertion: `key` lands right after the last element not greater than it, with the greater ones after it |
| Sorting.InsertPermutes | hometask3.py:17-20 | inserting `key` adds exactly that element to the multiset |
| Sorting.InsertSorts | hometask3.py:17-20 | inserting into a sorted prefix keeps it sorted |
| Sorting.InsertKeepsTies | hometask3.py:17 | the elements equal to any value keep their order after an insertion: the strict `>` never moves `key` before an equal element |
| Sorting.InsertionSortedIsStableSort | hometask3.py:13-21 | insertion sort returns a sorted permutation of its input that keeps equal elements in their original order |
| Sorting.Merge | hometask3.py:23-39 | the two-pointer loop returns `Merged(left, right)`, of length `len(left)+len(right)`, whose multiset is the union of the inputs |
| Sorting.MergeAdvance | hometask3.py:33-37 | each loop step appends the next element of the merged list: the left head when `left[i] <= right[j]`, the right head otherwise |
| Sorting.MergeFinish | hometask3.py:38 | once one list is used up, the two `extend` calls complete the merged list |
| Sorting.MergedPermutes | hometask3.py:32-39 | the merge holds exactly the elements of both lists |
| Sorting.MergedSorts | hometask3.py:32-39 | merging two sorted lists gives a sorted list |
| Sorting.MergedKeepsTies | hometask3.py:34-35 | on ties the merge takes from `left` first: the elements equal to any value are those of `left`, then those of `right`, each in order |
| Sorting.MergeSorted | hometask3.py:41-52 | merge sort returns a list of the same length and multiset |
| Sorting.MergeSortedIsStableSort | hometask3.py:41-52 | merge sort returns a sorted permutation that keeps equal elements in order |
| Sorting.StableSortUnique | hometask3.py:54-73 | two sorted lists that keep the equal elements of the same input in order are equal, so every stable sort agrees with the one the library implements |
| Sorting.InsertionSortedIsMergeSorted | hometask3.py:5-52 | insertion sort and merge sort return the same list for every input |
| Sorting.SortingSortedIsIdentity | hometask3.py:5-52 | sorting an already sorted list returns it unchanged |
| Sorting.LibrarySorted | hometask3.py:62 | the library sort returns a list of the same length and multiset |
| Sorting.LibrarySortedIsStableSort | hometask3.py:62 | `sorted` and `list.sort` are stable sorts |
| Sorting.TimsortSorted | hometask3.py:54-62 | `timsort_sorted` returns a new array holding the sorted input and modifies nothing |
| Sorting.TimsortSort | hometask3.py:64-73 | `timsort_sort` sorts the caller's array in place and returns that same array |
| Generators.GenSorted | hometask3.py:89-97 | `gen_sorted(n)` has length `max(n, 0)` and element `i` equal to `i` |
| Generators.GenReversed | hometask3.py:99-107 | `gen_reversed(n)` has length `max(n, 0)` and element `i` equal to `n - i` |
| Generators.GenSortedStrictlyIncreasing | hometask3.py:97 | `gen_sorted(n)` is strictly increasing |
| Generators.GenReversedStrictlyDecreasing | hometask3.py:107 | `gen_reversed(n)` is strictly decreasing |
| Generators.SortingGenSortedIsIdentity | hometask3.py:97 | every sort returns the "sorted" case unchanged |
| Generators.SortingGenReversed | hometask3.py:107 | sorting the "reversed" case gives `1, 2, ..., n` |
| Text.Split | hometask3.py:188 | `str.split(",")` gives at least one piece and no piece contains the separator |
| Text.JoinSplit | hometask3.py:188 | joining the pieces of a split with the separator gives the string back |
| Text.SplitJoin | hometask3.py:188 | splitting a join of separator-free pieces gives the pieces back |
| Text.Strip | hometask3.py:188 | `str.strip` returns the slice of the input between its leading and trailing whitespace; the result is empty exactly when the input is all whitespace, otherwise it starts and ends with non-whitespace |
| Text.ParseIntOfIntToString | hometask3.py:156 | `int(str(i)) == i` for every integer |
| Text.IntToString | hometask3.py:156 | `str(i)` is non-empty and starts with `-` exactly when `i` is negative |
| Text.Ljust | hometask3.py:164 | `ljust(w)` keeps the string as a prefix and pads it with spaces to `max(len, w)` characters |
| Text.StripLjust | hometask3.py:164 | a padded cell with no surrounding whitespace strips back to the cell |
| Text.RoundHalfEven | hometask3.py:156 | rounds to an integer within one half, ties to the even neighbour |
| Text.Fixed6 | hometask3.py:156 | `f"{x:.6f}"` has at least 8 characters, starts with `-` exactly for negative `x`, and ends with a point and six digits |
| Text.StrLeTotal | hometask3.py:204 | any two strings are ordered one way or the other |
| Text.StrLeAntisymmetric | hometask3.py:204 | strings ordered both ways are equal |
| Text.StrLeTransitive | hometask3.py:204 | string order is transitive |
| Table.FmtReadsBack | hometask3.py:155-156 | an int cell prints as a string that `int()` reads back as the same value; a float cell prints with a point and six decimals |
| Table.ShortestLine | hometask3.py:159 | `zip(*...)` stops at the shortest line: the index of a line no longer than any other |
| Table.Widths | hometask3.py:160 | one width per column `zip` yields; every cell fits its column's width and the width is that of some cell |
| Table.Padded | hometask3.py:164 | one string per cell; a cell no wider than its column is padded to exactly the column width and keeps its text at the front |
| Table.TableLinesSucceeds | hometask3.py:159-170 | `result_table` succeeds exactly when every row has one cell per header; otherwise `format_row` indexes past `widths` and raises `IndexError` |
| Table.ColumnWidths | hometask3.py:159-160 | for a rectangular table each width is at least the header and every formatted cell of its column, and equals one of them |
| Table.FramedWidth | hometask3.py:164-168 | a line framed by `"| "`, `" | "`, `" |"` (or the dashed equivalents) is `4 + sum(widths) + 3*(k-1)` characters long and ends with `|` |
| Table.GridWidths | hometask3.py:159-160 | the widths of the grid of a rectangular table: one per header, none narrower than the header or any formatted cell of its column, each equal to one of them |
| Table.RowFits | hometask3.py:164 | every cell of a row, left-justified to its column's width, is exactly that wide |
| Table.FramedPart | hometask3.py:164 | in a framed line, part `c` starts two characters after the `|` in front of column `c` |
| Table.FramedBar | hometask3.py:164-168 | in a framed line there is a `|` in front of every column: the opening's for the first, the middle of a separator for the others |
| Table.FramedColumn | hometask3.py:164-168 | in a framed line column `c` has a `|` at its start and holds its part right after it |
| Table.TableLine | hometask3.py:166-170 | line 0 frames the padded headers, line 1 the dashes, line `i + 2` the padded cells of row `i` |
| Table.TableLineFramed | hometask3.py:164-170 | each line of the table is as wide as every other, ends with `|`, has a `|` in front of every column and holds that line's header, dashes or cell text in each column |
| Table.TableLayout | hometask3.py:145-171 | a rectangular table has `len(rows) + 2` lines of equal width with the `|` bars aligned, and each column holds the header, dashes or cell of that line |
| Table.RowCell | hometask3.py:169-170 | column `c` of row `i`'s line is that row's formatted cell, left-justified to the column width |
| Benchmark.NonBlank | hometask3.py:188 | every token kept is non-blank and is its own strip, and there are no more tokens than pieces |
| Benchmark.NonBlankCommaFree | hometask3.py:188 | stripping adds no character, so comma-free pieces give comma-free tokens |
| Benchmark.NonBlankAppend | hometask3.py:188 | the filter works piece by piece: the tokens of `a + b` are those of `a`, then those of `b` |
| Benchmark.NonBlankOne | hometask3.py:188 | a single piece gives its strip, or nothing when it is blank; with `NonBlankAppend` every non-blank piece is kept, stripped, in order |
| Benchmark.AppendOfCons | hometask3.py:188 | a map on lists that works element by element distributes over concatenation |
| Benchmark.SizeTokens | hometask3.py:188 | every size token is non-empty, already stripped and comma-free |
| Benchmark.SizeTokensOfPieces | hometask3.py:188 | `--sizes` written as comma-separated pieces gives exactly `NonBlank` of those pieces |
| Benchmark.ParseAll | hometask3.py:188 | succeeds exactly when every token is an integer literal, giving their values in order; otherwise fails with the first bad token (ValueError) |
| Benchmark.SizeTokensOfJoin | hometask3.py:188 | comma-joined stripped tokens read back as themselves |
| Benchmark.ParseSizesOfJoin | hometask3.py:178-188 | any list of sizes written like the default `1000,5000,10000,20000` parses back to that list |
| Benchmark.SizeTokensDropsBlanks | hometask3.py:188 | `"1000,,5000, "` gives the tokens `"1000"` and `"5000"` |
| Benchmark.ParseSizesDropsBlanks | hometask3.py:188 | `"1000,,5000, "` gives the sizes `[1000, 5000]` |
| Benchmark.RunAlgorithm | hometask3.py:116-121 | running an algorithm changes its argument only for `Timsort sort`, which leaves it sorted |
| Benchmark.AfterRunIdempotent | hometask3.py:72 | running an algorithm on what it left behind changes nothing more |
| Benchmark.BenchInputsAsWritten | hometask3.py:141 | as written, the repeats see the data once, then what the previous run left in the shared list |
| Benchmark.InputsAsWrittenContents | hometask3.py:141 | as written, every repeat of `Timsort sort` after the first is given an already sorted list; the other algorithms always see the data |
| Benchmark.TimsortSortRepeatSeesSortedData | hometask3.py:141 | the reversed data `[2, 1]` with two repeats: the second run of `Timsort sort` is given `[1, 2]` |
| Benchmark.BenchInputs | hometask3.py:141 | with a fresh copy per repeat, each of the `repeats` runs sees the dataset as generated |
| Benchmark.BenchMedian | hometask3.py:133-142 | `StatisticsError` when `repeats <= 0`; otherwise the median of `repeats` runs, each on its own copy of the dataset (the corrected protocol of the Findings table) |
| Benchmark.PointResults | hometask3.py:196-201 | the rows of one (case, n) point, skipping Insertion when `n > max_ins`; `StatisticsError` when `repeats <= 0` |
| Benchmark.CaseResults | hometask3.py:195-201 | the rows of one case over all sizes, or `StatisticsError` when there is a size and no repeat |
| Benchmark.CollectResults | hometask3.py:192-201 | the results of main's loops, in append order, or `StatisticsError` exactly when `repeats <= 0` and some size is given |
| Benchmark.PointRowsContents | hometask3.py:197-201 | a point's rows are exactly its algorithms the guard lets through, each with its measured time |
| Benchmark.CaseRowsContents | hometask3.py:195-201 | a case's rows are exactly its (n, algorithm) pairs the guard lets through |
| Benchmark.MatrixContents | hometask3.py:194-201 | the collected rows are exactly the (case, n, algorithm) triples the guard lets through |
| Benchmark.MatrixRows | hometask3.py:194-201 | a row for Insertion at size `n` exists iff `n <= max_ins`; every other algorithm has a row for every case and size; each row carries its point's median time |
| Benchmark.MatrixByCase | hometask3.py:194 | the results are the "random" rows, then "sorted", then "reversed" |
| Benchmark.MatrixHasDistinctKeys | hometask3.py:194-201 | with no repeated size, no two rows share a (case, n, algorithm) key |
| Benchmark.CaseRowsAppend | hometask3.py:194-201 | the rows of a case for the sizes `a + b` are those for `a`, then those for `b` |
| Benchmark.CaseRowsAround | hometask3.py:194-201 | the rows of a case around size `j`: the sizes before it, the point's own rows, the sizes after it |
| Benchmark.MergeRowBefore | hometask3.py:194-201 | a size among the first `j` sizes has its "Merge" row among their rows |
| Benchmark.RepeatedSizeRepeatsRows | hometask3.py:188-201 | whenever a size appears twice in `--sizes`, two rows share a (case, n, algorithm) key: main does not remove duplicates |
| Benchmark.RowLeIsTotalPreorder | hometask3.py:204 | the key order on `(case, n, algorithm)` is total and transitive |
| Benchmark.SortedResults | hometask3.py:204 | the sorted results have the same length and multiset as the collected ones |
| Benchmark.SortedResultsOrdered | hometask3.py:204 | after `results.sort` the rows are in non-decreasing `(case, n, algorithm)` order, hold exactly the collected rows, and rows with equal keys keep their order |
| Benchmark.ReportOrder | hometask3.py:204 | in the report cases are in string order, and within a case sizes ascend |
| Benchmark.RunBenchmark | hometask3.py:186-209 | main fails with the first bad size token, or with `StatisticsError` when there is a size and no repeat; otherwise it prints the table of the sorted results |
| Benchmark.ReportCellReadsBack | hometask3.py:169-170 | a trimmed cell of the report strips back out of its column |
| Benchmark.ReportRowReadsBack | hometask3.py:169-170 | line `i + 2` of the report holds row `i`'s case, size and algorithm in columns 0-2 |
| Benchmark.ReportReadsBack | hometask3.py:159-171 | the report has `len(rows) + 2` aligned lines of equal width, joined by newlines, and every row's case, size and algorithm read back from its line |

## Left out

- `gen_random` (hometask3.py:77-87) depends on CPython's Mersenne Twister. It is the parameter `genRandom`: any function from `n` to a list, so its length, range and seed are not modelled.
- Timing: `bench_once` uses `timeit`, and `statistics.median` reduces the timings. Both are the parameter `measure`. It receives the inputs the repeats see when each repeat gets its own copy of the data (see Findings), and its value is otherwise opaque.
- `parse_args`/argparse, and the `print` of the title and the table (hometask3.py:173-184, 208-209). `RunBenchmark` takes the parsed arguments and returns the table text.
- Benchmark.BenchMedian: `main` is modelled with the corrected protocol of the Findings table, a fresh copy of the dataset per repeat. As written, `bench_median` hands the one list `data` to every repeat, so repeats 2 and later of "Timsort sort" run on already sorted data; `BenchInputsAsWritten` and `InputsAsWrittenContents` state this. The times in `PointTime`, and so in `PointResults`, `CollectResults`, `MatrixRows` and `RunBenchmark`, are those of the corrected protocol.
- Sorting.LibrarySorted: the Timsort algorithm behind `sorted` and `list.sort` is not modelled. Its result is defined through the merge sort; `StableSortUnique` shows every stable sort returns that list.
- Text.Fixed6: floats are modelled as exact reals. Python rounds the binary value of a double; `-0.0`, `nan` and `inf` are not modelled.
- Text.ParseInt: Python's `int()` also accepts non-ASCII decimal digits; the model accepts ASCII digits only.
- Rejecting an empty size list, or a non-positive `--repeats`, before any work: the code does neither. An empty size list prints an empty table. A non-positive `--repeats` fails in `statistics.median` at the first point. The model follows the code.
- hometask1.py (a file copier) and hometask2.py (Koch snowflake plotting) are not part of this model.

## Findings

| source | as written | input that shows it | evidently intended | confidence | as-written member | corrected member |
|---|---|---|---|---|---|---|
| hometask3.py:141 | every repeat of `bench_median` passes the same list `data` to the algorithm; `timsort_sort` sorts that list in place | the "reversed" case with `n = 2` and `--repeats 2`: the first run of `Timsort sort` sorts `[2, 1]`, the second sorts `[1, 2]` | each repeat sorts its own copy of the dataset, so every run measures the same input | medium (not executed) | Benchmark.BenchInputsAsWritten, Benchmark.TimsortSortRepeatSeesSortedData | Benchmark.BenchInputs |
