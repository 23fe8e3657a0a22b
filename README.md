# rtree disk-usage scanner, modelled in Dafny

rtree reports disk usage for a target path. For a regular file it reports
the file itself. For a directory it reports one row per immediate child:
a file's length, or for a sub-directory the sum of the file sizes beneath
it. The sum is best-effort and saturates at `u64::MAX`. The rows are sorted
by size or by name, optionally cut to the first N, and printed with their
sizes in B/KB/MB/GB/TB.

This project models the scanning and reporting core of `src/main.rs`. The
filesystem is given as data: what `fs::metadata`, `fs::read_dir` and
`WalkDir` would return. The progress bar is reduced to a counter object.

Modules (one per component, all from `src/main.rs`):

- `Items`: `ItemStat` rows, `SortBy`, `u64`, I/O errors and `Result`.
- `Ordering`: the `sort_by` comparators. Path comparison is lexicographic
  on code points, which orders the same as the UTF-8 bytes Rust compares.
  It is proved equal to the textbook definition of lexicographic order.
  Both comparators are proved total orders on (path, size).
- `Sorter`: `sort_items` as an in-place sort of an `array<ItemStat>` (an
  insertion sort by adjacent swaps), plus the `--limit` truncation of `main`.
- `Walker`: `walk_size` as a loop over an abstract sequence of walk events.
  The `ProgressBar` class holds the counter that `pb.inc(1)` advances.
- `Scanner`: `stat_path` and `collect_stats`. The parallel map over the
  children is run one child after another. They are proved to give the
  same rows (as a multiset) in whichever order the children come.
- `Format`: `human_size` (the `< 1024` text and the unit-choice loop) and
  the size-column width of `print_table`.
- `Pipeline`: `main` from the scan to the rows it prints, plus the proof
  that a rescan of the same directory prints the same rows.

Where the code and its documented behaviour differ, the model follows the code:

- A failing `fs::read_dir` on the target is fatal too (`?` at src/main.rs:89).
  It is not only the target's `fs::metadata` that can fail the whole scan.
- A row is a directory row whenever its metadata is not a regular file.
  That includes special files, which are then walked, like a directory.
- The progress counter advances for a file whose metadata read then fails
  (src/main.rs:164-166). It also advances once for a file target.
- `human_size` divides an `f64`. The model divides an exact `real`. Dividing
  by 1024.0 is exact in binary floating point. Converting the `u64` to `f64`
  is exact below 2^53, and every count at or above 2^53 is far past 2^40, so
  the unit chosen is the same as the code's.

## Model

| member | source | states |
|---|---|---|
| `Ordering.CmpInt` | src/main.rs:196-197 | the three-way comparison of sizes answers Less/Greater exactly when the first is smaller/larger |
| `Ordering.CmpStrEqual` | src/main.rs:198 | two paths compare Equal exactly when they are the same string |
| `Ordering.CmpStrFlip` | src/main.rs:198 | swapping the arguments flips the path comparison |
| `Ordering.CmpStrTransitive` | src/main.rs:198 | path order is transitive |
| `Ordering.CmpStrIsLexicographic` | src/main.rs:198 | the path comparison answers Less exactly when the first path is a proper prefix of the second, or has the smaller character at the first position where they differ |
| `Ordering.CmpEqual` | src/main.rs:192-210 | under either mode two rows compare equal exactly when they have the same path and size, so the order is total on (path, size) |
| `Ordering.CmpFlip` | src/main.rs:192-210 | under either mode, swapping the rows flips the comparison |
| `Ordering.PrecedesTotal` | src/main.rs:192-210 | of any two rows, one may precede the other |
| `Ordering.PrecedesTransitive` | src/main.rs:192-210 | "may precede" is transitive under either mode |
| `Ordering.SizeOrder` | src/main.rs:194-199 | by size: x precedes y iff x is larger, or equally large with a path not after y's |
| `Ordering.NameOrder` | src/main.rs:201-207 | by name: x precedes y iff x's path is lexicographically smaller, or equal with a size not below y's |
| `Sorter.SortItems` | src/main.rs:192-210 | after sorting in place, every row may precede every later row, and the array is a permutation of its old contents |
| `Sorter.SortedBySize` | src/main.rs:194-199 | a list sorted by size has non-increasing sizes, and equal sizes have ascending paths (both directions) |
| `Sorter.SortedByName` | src/main.rs:201-207 | a list sorted by name has ascending paths, and equal paths have descending sizes (both directions) |
| `Sorter.SortedUnique` | src/main.rs:192-210 | when rows with equal paths are equal rows, two sorted permutations of the same rows are identical: the report order is determined |
| `Sorter.SortAndLimit` | src/main.rs:66-72 | the output is the sorted permutation of the scan, cut to `limit` rows exactly when it is longer; it stays sorted, and every dropped row ranks after every kept one |
| `Sorter.LimitKeepsLeading` | src/main.rs:68-72 | keeping the first n rows of a sorted list keeps a sorted sub-multiset whose rows precede every dropped row |
| `Walker.ProgressBar.Inc` | src/main.rs:165 | an increment advances the position by exactly one |
| `Walker.SatAdd` | src/main.rs:167 | `saturating_add`: the exact sum when it fits in a `u64`, else `u64::MAX` |
| `Walker.WalkSize` | src/main.rs:144-190 | the result is the left-to-right saturating total of the walk, and the counter advances by the number of regular-file entries |
| `Walker.TotalIsClampedSum` | src/main.rs:145-189 | the walk's total equals the exact sum of readable file lengths, capped at `u64::MAX`: it never wraps |
| `Walker.TotalExact` | src/main.rs:145-189 | when the lengths fit in a `u64`, the total is exactly their sum |
| `Walker.TotalMonotone` | src/main.rs:147-187 | walking further never lowers the total |
| `Walker.OnlyReadFilesCount` | src/main.rs:148-185 | a walker error, a non-file entry or a file whose metadata fails, anywhere in the walk, changes nothing in the total |
| `Walker.TotalPerm` | src/main.rs:147-187 | the total does not depend on the order in which the walk visits entries |
| `Walker.FilesSeenCountsFiles` | src/main.rs:164-166 | the counter's advance equals the number of regular-file entries, readable or not, and nothing else |
| `Scanner.StatPath` | src/main.rs:125-142 | a file gives a file row of its length and one increment; anything else a directory row sized by the walk; a metadata failure is returned as is |
| `Scanner.ListedEntries` | src/main.rs:89-99 | the listed children are exactly the `read_dir` entries that were read without error |
| `Scanner.KeptRows` | src/main.rs:101-120 | each collected row is the row of some child whose `stat_path` succeeded, and every such child contributes its row |
| `Scanner.CollectStats` | src/main.rs:77-123 | the result equals the scan of the target, and the counter advances by the scan's increments |
| `Scanner.ScanFileTarget` | src/main.rs:80-87 | a file target gives exactly one row, a file row of the file's length, after one increment |
| `Scanner.DirectoryRows` | src/main.rs:89-122 | a directory target gives exactly the rows of children that were both listed and classified, one row per such child; each row occurs exactly as often as there are such children producing it |
| `Scanner.KeptOrderIrrelevant` | src/main.rs:101-120 | children in any order give the same multiset of rows |
| `Scanner.ListedOrderIrrelevant` | src/main.rs:89-99 | `read_dir` entries in any order give the same multiset of children |
| `Scanner.RowMultiplicity` | src/main.rs:89-120 | each row occurs in the scan exactly as often as listed, classified entries produce it |
| `Scanner.SameChildSameRow` | src/main.rs:125-142 | a child with the same path and metadata, walked in another order, gets the same row |
| `Scanner.SameEntriesSameRows` | src/main.rs:89-120 | listings whose entries match one by one, up to the order of each walk, give the same rows |
| `Format.DecimalRoundTrip` | src/main.rs:251 | the decimal rendering of a count is all digits, has no leading zero, and parses back to the count |
| `Format.DecimalShort` | src/main.rs:250-251 | a count below 1024 renders in at most four digits, so its size text is at most six characters |
| `Format.HumanSize` | src/main.rs:247-262 | below 1024 the number and " B" (at most six characters); otherwise the unit index is between 1 and 4. It is the largest power of 1024 the count reaches, capped at TB. The value is the count over that power, at least 1, and below 1024 unless the unit is TB |
| `Format.MaxLen` | src/main.rs:219-222 | the maximum length is absent exactly for no strings, and is otherwise the length of one string and at least every length |
| `Format.SizeWidth` | src/main.rs:219-224 | the size column is at least 4 wide and at least as wide as every rendered size, and equals 4 or the longest one |
| `Pipeline.Run` | src/main.rs:51-72 | a failed scan is reported as its error; otherwise the rows are the scan's rows sorted, cut to the limit, with every dropped row ranked after every kept one |
| `Pipeline.SameTreeSameReport` | src/main.rs:89-122 | two scans of the same directory give identical sorted reports, with the children listed in any order and each child's subtree walked in any order |
| `Pipeline.RowsOnePerPath` | src/main.rs:101-120 | children with distinct names give rows with distinct paths |
| `Pipeline.ExampleOrder` | src/main.rs:192-210 | the rows (a,100), (b,100), (c,50) have the one sorted order a, b, c under both modes |

## Left out

- Command-line parsing with `clap` (src/main.rs:11-25, 41): the sort mode and the limit are parameters.
- Progress-bar setup and rendering (src/main.rs:43-52): only `pb.inc(1)` is kept, as `ProgressBar.Inc`.
- The parallel map with `rayon` (src/main.rs:102): children are classified one after another. Atomic increments are not modelled.
- Filesystem calls (`fs::metadata`, `fs::read_dir`, `WalkDir` without following links): their results are input data. The model does not check that a walk visits each entry once or that it follows no links.
- Console output: warnings, `is_permission_denied`, `format_io_error`, `process::exit` (src/main.rs:57-62, 212-245, 264-274). Warnings do not change results. An error kind only decides whether a warning is printed. Exit status 1 is the `Err` result of `Pipeline.Run`.
- `print_table` apart from the width: the header, the separator, the `DIR`/`FILE` column and "No items found." are printing only.
- `Format.HumanSize`: the two-decimal rendering `{value:.2}` of the scaled value is not modelled. The result gives the exact quotient and the unit index instead of the text.
- `Format.SizeWidth`: takes the rendered sizes as given strings, because the scaled sizes' text is not modelled.
- `Sorter.SortItems`: Rust's `sort_by` is stable. The model's insertion sort never swaps rows that compare equal, but stability is not proved. Rows that compare equal have the same path and size, so `Sorter.SortedUnique` shows the order is determined whenever paths are distinct.
- `to_string_lossy`: paths are already-decoded strings.
