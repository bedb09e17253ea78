# Active ETF monitor: snapshot diff engine in Dafny

This project models the core of the active-ETF holdings monitor. The monitor
saves one holdings snapshot per day (`etf_holdings_<YYYYMMDD>.csv`). It picks
the newest two snapshots and compares them fund by fund. For each fund it
reports:

- **new**: stocks held now that were not held before;
- **exit**: stocks held before that are no longer held;
- **changed**: stocks held in both snapshots whose weight moved by more than
  0.001 percentage points or whose share count moved. These rows are sorted by
  weight change, largest first.

The model has three parts:

- `compare_holdings`, the diff engine (module `Diff`, over the tables of
  module `Holdings`);
- choosing which two snapshot files to compare (module `Snapshots`);
- flattening the provider's decoded asset list into holdings rows (module
  `Extract`).

Supporting modules:

- `Sorting`: a functional insertion sort over any total preorder;
- `Strings`: Python's `str` ordering, `startswith` and `endswith`;
- `Wrappers`: `Option`.

Weights and share counts are `real`, so the tolerance test is exact. Stock ids
and fund codes are strings.

Behaviours of the code that the model keeps as they are:

- The result has one entry per fund of the **current** table only. A fund that
  appears only in the previous table gets no entry, so its exits are never
  reported.
- Changed rows are sorted by weight change alone. pandas' default sort is not
  stable, so the model promises no order among equal weight changes. There is
  no tie-break by stock id.
- `new` and `exit` are tables indexed by stock id. pandas' `Index.difference`
  decides their row order, and that order depends on the pandas version. The
  model gives them as maps keyed by stock id.
- A duplicate stock id within a fund is not detected by the code. The model
  makes per-fund uniqueness a precondition (`Diff.Comparable`). It covers
  every fund of the current table, and only those funds of the previous
  table: the previous table's other funds are never indexed.
- A detail whose numbers `float()` rejects does not just skip that row. The
  exception is caught around the whole loop, so the fetch returns `None` and
  no row of that fund is kept.

## Model

| member | source | states |
|---|---|---|
| `Holdings.WithFundColumn` | monitor_active_etfs.py:189-190 | A table without an `ETF` column gets one, filled with `00981A` on every row. Every other cell of every row is kept, and the row count is unchanged. |
| `Holdings.FundRows` | monitor_active_etfs.py:195-196 | The rows selected for a fund are exactly the table's rows tagged with that fund. |
| `Holdings.Index` | monitor_active_etfs.py:195-196 | Indexing rows with unique ids by `stock_id` knows exactly their ids. Each id maps to the row that carries it. |
| `Holdings.FundRowsHoldings` | monitor_active_etfs.py:195-196 | The index of one fund's rows contains stock `k` iff the table holds `k` in that fund. A missing `ETF` column counts as fund `00981A`. |
| `Holdings.Unique` | monitor_active_etfs.py:192 | `unique()` returns each value of the column exactly once, and nothing else, in order of first appearance. |
| `Holdings.FundCodes` | monitor_active_etfs.py:192 | The funds listed are exactly those that tag some row, with no repeats. |
| `Holdings.FundCodesInFirstAppearanceOrder` | monitor_active_etfs.py:192 | The funds are listed in the order in which each first appears in the `ETF` column. |
| `Holdings.DefaultFundOnly` | monitor_active_etfs.py:189-192 | Without an `ETF` column the only fund listed is `00981A`. It is listed once if the table has rows, and nothing is listed if it has none. |
| `Diff.Moved` | monitor_active_etfs.py:217 | Any share movement selects a stock. With equal shares, it is selected iff its weight moved by more than 0.001 either way. |
| `Diff.ChangeOf` | monitor_active_etfs.py:219-227 | A changed row carries the stock's id, its current name, the previous and current weight and shares, and diffs that are current minus previous. It is selected iff its weight diff exceeds 0.001 in size or its share diff is non-zero. |
| `Diff.RowsNotIn` | monitor_active_etfs.py:199-204 | The rows of one indexed table whose id the other lacks: the keys are the set difference, and each value is the first table's row. |
| `Diff.MovedPositions` | monitor_active_etfs.py:207-217 | Before sorting, the changed rows are exactly the changes of the visited ids that both tables hold and the mask selects. |
| `Diff.DiffFund` | monitor_active_etfs.py:194-233 | Per fund, `new` has exactly the ids held now but not before, and each maps to its current row. `exit` has exactly the ids held before but not now, and each maps to its previous row. `changed` is ordered by weight diff, non-increasing. |
| `Diff.EnteredExitedCommonPartition` | monitor_active_etfs.py:199-207 | `new`, `exit` and the common ids are pairwise disjoint. Together they are exactly the ids of either table. |
| `Diff.ChangedIffMoved` | monitor_active_etfs.py:207-217 | A stock has a changed row iff both tables hold it and its weight moved by more than 0.001 or its share count moved. |
| `Diff.ChangedRowsDescribeCommonStocks` | monitor_active_etfs.py:212-226 | Each changed row takes its name and current figures from the current table and its previous figures from the previous table. Its diffs are current minus previous. No stock has two changed rows. |
| `Diff.FundSelfDiffIsEmpty` | monitor_active_etfs.py:199-217 | A fund's rows diffed against themselves give empty `new`, `exit` and `changed`. |
| `Diff.MaskBoundary` | monitor_active_etfs.py:217 | The tolerance is strict. A weight move of exactly 0.001 with equal shares is not a change. A larger move either way is a change, and so is any share movement. |
| `Diff.ShareIncreaseExample` | monitor_active_etfs.py:212-233 | A stock that keeps its weight and goes from 1000 to 1200 shares is changed, with a share diff of 200 and a weight diff of 0. Nothing enters or exits. |
| `Diff.CompareHoldings` | monitor_active_etfs.py:186-235 | The result has one entry per distinct fund of the current table and no other. A fund found only in the previous table gets none. Each entry is that fund's diff. Ids must be unique within each fund of the current table, and within the same funds of the previous table. |
| `Diff.FundCodesOfTable` | monitor_active_etfs.py:189-192 | The funds listed for a table are exactly the funds of its rows, with `00981A` for a table without an `ETF` column. |
| `Diff.WellKeyedTablesAreComparable` | monitor_active_etfs.py:194-196 | Two tables with unique ids within every fund can always be compared. |
| `Diff.DuplicatesOutsideCurrentFundsAreHarmless` | monitor_active_etfs.py:194-196 | A previous table that repeats an id only in a fund the current table lacks can still be compared. |
| `Holdings.WellKeyedIsKeyedFor` | monitor_active_etfs.py:195-196 | A table with unique ids within every fund has unique ids within any chosen funds. |
| `Diff.FundsInFirstAppearanceOrder` | monitor_active_etfs.py:192-194 | The result lists the current table's funds in the order in which each first appears in its `ETF` column. |
| `Diff.EnteredAndExitedByHoldings` | monitor_active_etfs.py:195-204 | In a fund's entry, `new` contains `k` iff the current table holds `k` in that fund and the previous one does not. `exit` is the reverse. |
| `Diff.SelfComparisonIsEmpty` | monitor_active_etfs.py:186-235 | Comparing a table with itself gives every fund empty `new`, `exit` and `changed`. |
| `Diff.NoFundColumnMeansDefaultFund` | monitor_active_etfs.py:189-194 | A current table without an `ETF` column gives exactly one entry, for `00981A`, or none when it has no rows. |
| `Sorting.InsertionSort` | monitor_active_etfs.py:232 | Sorting returns a permutation of its input, ordered by the given total preorder. |
| `Strings.LexLeIsTotalPreorder` | monitor_active_etfs.py:143 | Python's string `<=` is total and transitive, so sorting file names is well defined. |
| `Snapshots.SnapshotName` | monitor_active_etfs.py:136 | The file name written for a run passes the snapshot filter. |
| `Snapshots.SnapshotFiles` | monitor_active_etfs.py:143 | Only names with prefix `etf_holdings_` and suffix `.csv` are kept, each as often as it is listed. |
| `Snapshots.SortNames` | monitor_active_etfs.py:143 | `sorted` returns a permutation of the names, in Python string order. |
| `Snapshots.SortedNamesAreUnique` | monitor_active_etfs.py:143 | Two sorted permutations of the same names are equal, because Python's string order is antisymmetric. |
| `Snapshots.SortNamesIsTheSort` | monitor_active_etfs.py:143 | Any sorted permutation of the names is the result of `sorted`: it has exactly one possible result. |
| `Snapshots.SelectSnapshots` | monitor_active_etfs.py:143-146 | There is no selection exactly when fewer than two snapshot names are listed. |
| `Snapshots.SelectionIsTopTwo` | monitor_active_etfs.py:143-146 | Both selected names are listed snapshot names. The current one is the largest. Every other snapshot name is at most the previous one. The two coincide only when that name is listed twice. |
| `Snapshots.SnapshotNamesSortByStamp` | monitor_active_etfs.py:135-143 | For stamps of equal width, snapshot file names sort as their stamps do. |
| `Snapshots.CompareLatest` | monitor_active_etfs.py:143-170 | With fewer than two snapshots no comparison is made. Otherwise the current snapshot is compared with the previous one. Only the two snapshots read must meet the precondition of `Diff.CompareHoldings`. |
| `Extract.Elements` | monitor_active_etfs.py:84-86 | A list is iterated element by element. An empty object or string iterates nothing. Any other value makes the loop raise. |
| `Extract.Text` | monitor_active_etfs.py:88-89 | A missing key reads as the stripped empty string, and a string value is stripped. Any other value makes the call raise. |
| `Extract.Number` | monitor_active_etfs.py:90-92 | A missing key reads as 0. A number is kept, a boolean reads as 1 or 0, and a string is parsed by `float`. `null`, a list or an object makes the call raise. |
| `Extract.DetailRow` | monitor_active_etfs.py:86-93 | A detail converts iff it is an object whose two texts and three numbers all convert. The row then holds exactly those converted values. |
| `Extract.ItemRows` | monitor_active_etfs.py:84-86 | A non-object item makes the loop raise. An object that is not a stock asset contributes no row. A stock asset whose `Details` cannot be iterated makes the loop raise. |
| `Extract.ItemsRows` | monitor_active_etfs.py:84-93 | The loop over the asset list succeeds iff every item's own step succeeds. |
| `Extract.ExtractHoldings` | monitor_active_etfs.py:83-98 | The result is never an empty table. It is `None` when the loop raises or finds no stock holding. Otherwise it is a table without an `ETF` column whose rows are exactly the rows the loop produced. |
| `Extract.ExtractHoldingsOfAssetList` | monitor_active_etfs.py:83-98 | For an asset list, the table exists iff every stock asset's details can be visited, each converts, and there is at least one. Its rows are then those details' rows, one for one, in input order. |
| `Extract.DetailsRows` | monitor_active_etfs.py:86-93 | A list of details converts iff each detail does. The rows then match the details one for one, in order. |
| `Extract.ItemsOf` | monitor_active_etfs.py:84 | An asset list is looped over item by item. An empty object or string yields no rows. Any other value makes the loop raise. |
| `Extract.ExtractionFlattensStockDetails` | monitor_active_etfs.py:84-93 | The loop succeeds iff every stock asset's details can be visited and every such detail converts. Its rows are then those details' rows, in input order. |
| `Extract.OtherAssetsAreSkipped` | monitor_active_etfs.py:84-85 | An item that is not a stock asset with `Details` contributes no row, wherever it stands. |

## Left out

- HTTP fetching is not modelled: the URL map, headers, the 15-second timeout and `raise_for_status` (lines 15-56) are network I/O.
- Locating the `DataAsset` element, `html.unescape`, `json.loads` and the debug HTML dumps (lines 27-31, 56-80, 101-104) are not modelled. They are foreign parsing libraries and file writes. The model starts from the decoded JSON value.
- `str.strip()` and `float()` of a string are parameters (`Extract.Lib`), not modelled library code.
- The fetch loop over the monitored funds, `pd.concat`, CSV reading and writing, `os.listdir`, `os.makedirs` and `datetime.now()` (lines 10-13, 118-139, 150-151) are I/O and clock. The model takes the directory listing as input and reading a snapshot as a function parameter (`read`).
- The HTML report, the index page and `os.startfile` (lines 237-361) are string templating and UI side effects.
- The unused `etfs` value (line 154) and the `ETF` column added after the file is written (lines 163-164) are left out because they have no effect.
- Weights and shares are exact reals, not IEEE doubles. Rounding and NaN are not modelled.
- `read_csv` type inference is not modelled: the model treats ids as opaque strings. pandas infers each file's `stock_id` type separately. A file whose ids are all digits gets integer ids, while a file with an id such as `2881A` keeps string ids. When the two snapshots differ in this way, integer `2330` and string `"2330"` are different index labels, so the same stock is reported both as new and as an exit. The model does not show this.
- pandas behaviour on a duplicate `stock_id` within one fund is not modelled. Uniqueness per fund is a precondition of `Diff.CompareHoldings`, stated as `Diff.Comparable`.
- Iterating a non-empty JSON object or string inside the extraction loop is modelled directly as the exception it leads to (`Extract.Elements`). Iteration yields strings, and the next `.get` on a string raises.
- `Diff.DiffFund`: states the row order of `new` and `exit` nowhere, because `Index.difference` decides it differently across pandas versions. Both are maps keyed by stock id.
- `Diff.DiffFund`: promises no order among changed rows with equal weight diffs, because `sort_values` is not stable by default.
