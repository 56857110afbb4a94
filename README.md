# 200SMA backtest: a verified model

This project models the core of a small moving-average backtester, written in Dafny.

The original is a Streamlit page (`app.py`) over a CSV loader (`hamster_data/loader.py`). The loader finds the symbols in `data/`, reads `data/<symbol>.csv`, normalises the header and checks that the required columns are present. It then drops repeated dates (the first row of a date wins), sorts by date, and derives a `Price` column (the close) and a `Return` column (the daily fractional change, zero on the first row).

A backtest run does the following:

1. It slices that series to an inclusive date range and refuses ranges holding fewer bars than the moving-average window.
2. It computes the trailing mean and drops the warm-up bars.
3. It runs an edge-triggered crossover state machine: the first bar is long; later bars go long on a golden cross, flat on a death cross, and otherwise keep the previous state.
4. It compounds the position-gated returns and the plain returns into a strategy curve and a buy-and-hold curve.
5. It scales both curves by the initial capital and measures the elapsed years behind the CAGR.

The model has three modules:

- `Series` (`series.dfy`):
  - the `Bar` value both sides share;
  - `Option` and `Result`;
  - the two facts the engine relies on:
    - `Ascending`: dates strictly increase;
    - `ReturnsMatch`: each return after the first is the price change.
- `Loader` (`loader.dfy`):
  - header normalisation with Python's `strip` whitespace set;
  - the required-column loop, as a method;
  - dedup-then-sort;
  - the `Price`/`Return` columns;
  - `load_price`, as a method over its inputs;
  - `list_symbols`, including `os.path.splitext`'s rule for names whose stem is all dots.
- `Backtest` (`backtest.dfy`):
  - the range slice: the two positions that pandas' searches return on a sorted index, found here by linear scans;
  - warm-up trimming;
  - the signal loop, as a method proved equal to a recursive definition;
  - the equity, capital and elapsed-time columns;
  - the whole run, both as a function and as the step-by-step method.

Two behaviours of the code shape the model:

- **Exactly `window` bars in range.** Such a range passes the guard at `app.py:37` and leaves one bar after `dropna`. Then `days == 0`, and `1 / years` at `app.py:92` raises ZeroDivisionError (see Findings). The model returns `DegenerateRange` there.
- **Deduplication order.** Duplicates are dropped before the sort (`hamster_data/loader.py:40`), so the row kept for a date is its first row in file order.

The buy-and-hold curve includes the first trimmed bar's own return. That return was computed against the bar before the trim. So buy-and-hold growth is the price ratio times that first growth factor (`Backtest.BuyAndHoldIsPriceRatio`), not the bare price ratio.

## Model

| member | source | states |
|---|---|---|
| Backtest.Backtest | app.py:35-93 | one run: `InsufficientData` exactly when the range holds fewer bars than the window (`InsufficientDataBoundary`), `DegenerateRange` exactly when it holds `window` bars (`DegenerateExactlyAtWindow`), otherwise the evaluation of the trimmed slice (`BacktestEvaluatesTrimmedSlice`) |
| Backtest.Evaluate | app.py:66-90 | the report's columns: see `EvaluateColumns`, `CapitalCurves` and `ElapsedYears` |
| Backtest.SliceRange | app.py:35 | `df.loc[start:end]` on an ascending index: see `SliceIsRangeFilter` |
| Backtest.RollingMean | app.py:42 | `rolling(window).mean()`: undefined for the first `window - 1` bars, then the mean of the trailing window; see `TrimmedBars` |
| Backtest.DropUndefined | app.py:43 | `dropna` on the MA column: see `DropWarmup` and `DropAllUndefined` |
| Backtest.Trim | app.py:42-43 | the moving average with its warm-up dropped: see `TrimmedLength` and `TrimmedBars` |
| Backtest.Next | app.py:59-64 | one step of the crossover state machine: see `PositionTransitions` |
| Backtest.StrategyReturns | app.py:67 | `Return * Position`: see `GatedReturns` |
| Backtest.CumProd | app.py:70-71 | `(1 + r).cumprod()`: see `CumProdIsCompound` and `CumProdStep` |
| Backtest.StrategyCurve | app.py:70 | `Equity_SMA`: see `FlatBarsPreserveEquity`, `AlwaysLongMatchesBenchmark` and `EquityNonNegative` |
| Backtest.BenchmarkCurve | app.py:71 | `Equity_BH`: see `BenchmarkIgnoresSignals` and `BuyAndHoldIsPriceRatio` |
| Backtest.Scale | app.py:74-75 | capital as equity times the initial capital: see `CapitalCurves` |
| Backtest.ElapsedDays | app.py:89 | days from the first to the last trimmed bar: see `ElapsedYears` and `TimeElapsesPastWindow` |
| Backtest.RunBenchmarkIsSliceReturns | app.py:35-71 | a successful run's buy-and-hold curve is the compounded returns of the range from bar `window - 1` on; signals, averages and capital do not enter it |
| Backtest.LowerBound | app.py:35 | the start of the slice: every earlier bar is dated before `start`, and the bar at the position is on or after it |
| Backtest.UpperBound | app.py:35 | the end of the slice: every earlier bar is dated on or before `end`, and the bar at the position is after it |
| Backtest.SliceBounds | app.py:35 | on an ascending index, a bar lies between the two positions exactly when its date is in [start, end] |
| Backtest.SliceIsRangeFilter | app.py:35 | the slice is ascending and holds exactly the bars dated in [start, end], both ends included |
| Backtest.InsufficientDataBoundary | app.py:37-39 | the run fails with `InsufficientData` if and only if the slice holds fewer bars than the window |
| Backtest.DropAllUndefined | app.py:43 | when no average is defined, `dropna` leaves nothing |
| Backtest.DropWarmup | app.py:42-43 | dropping a leading run of `k` undefined averages shifts every bar by `k` and leaves `n - k` bars |
| Backtest.TrimmedLength | app.py:42-43 | trimming leaves `len - window + 1` bars |
| Backtest.TrimmedBars | app.py:42-43 | trimmed bar `j` is slice bar `j + window - 1`, its MA is the arithmetic mean of slice prices `j .. j + window - 1`, and the price and return columns are the slice's from `window - 1` on |
| Backtest.UptrendNeverBelowAverage | app.py:42 | on prices that never fall, no trimmed bar closes below its trailing mean |
| Backtest.MeanAtMostLast | app.py:42 | the mean of a non-decreasing window is at most its last price |
| Backtest.SumAtMostLast | app.py:42 | a non-decreasing window sums to at most its length times its last price |
| Backtest.Positions | app.py:46-66 | one position per trimmed bar, each 0 or 1, and the first is 1 whatever the prices |
| Backtest.PositionsPrefix | app.py:49-64 | the positions of a prefix of the bars are the prefix of the positions: the loop never revises an appended entry |
| Backtest.PositionStep | app.py:54-64 | each later position is the transition from the previous position on the previous and current bars |
| Backtest.PositionTransitions | app.py:59-64 | a golden cross gives 1; otherwise a death cross gives 0; otherwise the previous position is kept; a change happens only on a crossover in its direction |
| Backtest.NeverBelowStaysLong | app.py:47-64 | with no bar below its average, every position is 1 |
| Backtest.NeverBelowStaysLongAt | app.py:47-64 | the same, for one bar at a time |
| Backtest.DeriveSignals | app.py:46-64 | the loop with `current` and `continue` produces exactly `Positions` |
| Backtest.GatedReturns | app.py:67 | a flat bar's strategy return is 0 and a long bar's strategy return is the bar's return |
| Backtest.EvaluateColumns | app.py:66-75 | every column has one entry per trimmed bar; each strategy return is the same bar's return gated by the same bar's position |
| Backtest.EvaluateCurves | app.py:66-71 | the report's positions and equity curves are those of the trimmed bars; equal equity curves give equal final capital |
| Backtest.CumProdFrom | app.py:70-71 | the running product has one entry per return |
| Backtest.CumProdFromAt | app.py:70-71 | entry `i` of a product started from `acc` is `acc` times the compounded growth of returns `0 .. i` |
| Backtest.CumProdIsCompound | app.py:70-71 | entry `i` of `cumprod` is the product of `1 + r[k]` for `k <= i` |
| Backtest.CumProdStep | app.py:70-71 | the first entry is `1 + r[0]`, and each later entry is the previous one times `1 + r[i]` |
| Backtest.CompoundSnoc | app.py:70-71 | compounding one more return multiplies by its growth factor |
| Backtest.CompoundSnocAt | app.py:70-71 | the same, for a prefix of the returns |
| Backtest.CumProdFromNonNegative | app.py:70-71 | with no return below -100% and a non-negative start, the running product stays non-negative |
| Backtest.CumProdNonNegative | app.py:70-71 | with no return below -100%, `cumprod` stays non-negative |
| Backtest.FlatBarsPreserveEquity | app.py:67-70 | on a flat bar, strategy equity equals the previous bar's |
| Backtest.AlwaysLongMatchesBenchmark | app.py:67-71 | if every position is 1, the strategy curve equals the buy-and-hold curve |
| Backtest.EquityNonNegative | app.py:67-71 | with no return below -100%, both equity curves are non-negative at every bar |
| Backtest.BenchmarkIgnoresSignals | app.py:71 | the buy-and-hold curve depends only on the returns of the trimmed bars, and entry `i` is the compounded growth of returns `0 .. i` |
| Backtest.CompoundTelescopes | app.py:71 | compounding returns that are price changes gives the price ratio to the first bar, times the first growth factor |
| Backtest.CompoundTelescopesStep | app.py:71 | one step of that telescoping |
| Backtest.CompoundTelescopesBase | app.py:71 | the first step of that telescoping |
| Backtest.GrowthStep | app.py:71 | growing by the price change from `q` to `p` carries `c * p0 == k * q` over to the new price |
| Backtest.BuyAndHoldIsPriceRatio | app.py:71 | when returns are the price changes, buy-and-hold equity at bar `i` times the first price is the first growth factor times the price at bar `i` |
| Backtest.BuyAndHoldAt | app.py:71 | the same, for one bar |
| Backtest.CapitalCurves | app.py:74-81 | capital is equity times the initial capital, and the final capital is the last capital entry, for both curves |
| Backtest.ElapsedYears | app.py:89-90 | days are the last date minus the first date of the trimmed bars, and years are days / 365 |
| Backtest.ExactWindowLeavesNoTime | app.py:37-43 | with exactly `window` bars in range, one bar survives and zero days elapse |
| Backtest.TimeElapsesPastWindow | app.py:43-89 | with more than `window` bars in range, the elapsed days are positive |
| Backtest.DegenerateExactlyAtWindow | app.py:89-93 | the run fails with `DegenerateRange` if and only if the range holds exactly `window` bars |
| Backtest.BacktestEvaluatesTrimmedSlice | app.py:35-93 | a successful run had more than `window` bars in range, evaluates the trimmed slice, and has positive elapsed days |
| Backtest.RunBacktest | app.py:35-93 | the step-by-step run, with the signal loop, computes exactly `Backtest` |
| Backtest.TrimmedReturnsMatch | app.py:35-43 | on a series whose returns are its price changes, the trimmed bars of any run keep that relation |
| Backtest.ReturnsMatchSlice | app.py:35 | a contiguous piece of such a series keeps the relation |
| Backtest.ColumnsOfSlice | app.py:35 | the columns of a slice are slices of the columns |
| Backtest.ShiftedColumns | app.py:43 | bars copied with a shift of `k` carry the price and return columns from `k` on |
| Backtest.UptrendMatchesBenchmark | app.py:42-81 | when prices never fall within the range, every position is long, the strategy curve is the buy-and-hold curve, and the final capitals agree |
| Loader.NormaliseName | hamster_data/loader.py:31 | `c.strip().capitalize()`: see `NormaliseSameIff`, `NormaliseIdempotent`, `NormaliseDate` and `NormaliseClose` |
| Loader.NormaliseHeader | hamster_data/loader.py:31 | every header cell normalised, in order: see `HeaderWithAllColumnsPasses` |
| Loader.Capitalize | hamster_data/loader.py:31 | first letter upper case, the rest lower case: see `LowerOfCapitalize` and `CapitalizeOfLower` |
| Loader.DedupFirst | hamster_data/loader.py:40 | `drop_duplicates(subset=["Date"])`: see `DedupFacts` |
| Loader.Cleaned | hamster_data/loader.py:40 | dedup then sort by date: see `CleanedFacts` |
| Loader.Returns | hamster_data/loader.py:47 | `pct_change().fillna(0)`: see `ReturnsMatchPrices` and `ReturnsRebuildPrices` |
| Loader.ToBars | hamster_data/loader.py:41-47 | the frame indexed by date with its `Price` and `Return` columns: see `CleanBarsColumns` |
| Loader.CleanBars | hamster_data/loader.py:40-47 | the series `load_price` returns: see `CleanBarsColumns`, `LoadedFitsEngine` and `LoadedBarsAreFirstRows` |
| Loader.SplitExtRoot | hamster_data/loader.py:15 | `os.path.splitext(f)[0]`: see `CsvSymbol` |
| Loader.CsvFiles | hamster_data/loader.py:14 | the `.csv` entries in listing order: see `CsvFilesExact` |
| Loader.ListSymbols | hamster_data/loader.py:9-15 | `list_symbols`: see `NoDirectoryNoSymbols`, `ListSymbolsComplete` and `ListSymbolsSound` |
| Loader.DataPath | hamster_data/loader.py:23 | the file opened is `data/<symbol>.csv` for a relative symbol, and the symbol plus `.csv` for an absolute one |
| Loader.StripLeading | hamster_data/loader.py:31 | the result is a suffix of the input, everything dropped is whitespace, and the result does not start with whitespace |
| Loader.StripTrailing | hamster_data/loader.py:31 | the result is a prefix of the input, everything dropped is whitespace, and the result does not end with whitespace |
| Loader.Strip | hamster_data/loader.py:31 | the result neither starts nor ends with whitespace |
| Loader.StripNoop | hamster_data/loader.py:31 | a string with no surrounding whitespace is unchanged by `strip` |
| Loader.StripOneLeadingSpace | hamster_data/loader.py:31 | one leading blank before a stripped string is removed |
| Loader.NormaliseDate | hamster_data/loader.py:31 | `" date"` becomes `"Date"` |
| Loader.NormaliseClose | hamster_data/loader.py:31 | `"CLOSE"` becomes `"Close"` |
| Loader.NormaliseIdempotent | hamster_data/loader.py:31 | normalising a normalised name changes nothing |
| Loader.NormaliseSameIff | hamster_data/loader.py:31 | two header cells get the same name if and only if they agree after stripping and ignoring letter case |
| Loader.LowerOfCapitalize | hamster_data/loader.py:31 | lower-casing a capitalised name is lower-casing the name |
| Loader.CapitalizeOfLower | hamster_data/loader.py:31 | capitalising a lower-cased name is capitalising the name |
| Loader.CaseFolds | hamster_data/loader.py:31 | the ASCII case maps absorb each other |
| Loader.CaseKeepsSpace | hamster_data/loader.py:31 | changing case never makes or removes whitespace |
| Loader.FirstMissingIndex | hamster_data/loader.py:33-36 | every required column before the index is present, and the column at the index is absent |
| Loader.CheckRequired | hamster_data/loader.py:33-36 | the loop reports the first required column, in order, that the header lacks, or none |
| Loader.MissingIffAbsent | hamster_data/loader.py:33-36 | nothing is reported missing if and only if every required column is present |
| Loader.HeaderWithAllColumnsPasses | hamster_data/loader.py:31-36 | a header naming every required column, in any case and with any surrounding whitespace, passes the check |
| Loader.Dates | hamster_data/loader.py:40 | every row's date is among the dates |
| Loader.FirstIndex | hamster_data/loader.py:40 | the first row carrying a date: it carries the date and no earlier row does |
| Loader.FirstIndexUnique | hamster_data/loader.py:40 | any index with that property is the first index |
| Loader.FirstIndexSnoc | hamster_data/loader.py:40 | appending a row does not move the first row of an existing date |
| Loader.DatesSnoc | hamster_data/loader.py:40 | appending a row adds its date |
| Loader.DedupFacts | hamster_data/loader.py:40 | deduplication keeps every date, each exactly once, and the row kept for a date is its first occurrence in file order |
| Loader.DedupKeepsFirst | hamster_data/loader.py:40 | a kept first occurrence stays first when a row is appended |
| Loader.DedupAppendsNew | hamster_data/loader.py:40 | a last row with a new date is kept, and it is its date's first row |
| Loader.Insert | hamster_data/loader.py:40 | insertion adds exactly one row and keeps all others |
| Loader.SortByDate | hamster_data/loader.py:40 | the sorted rows are a permutation of the input |
| Loader.InsertAscending | hamster_data/loader.py:40 | inserting a row with a new date keeps dates strictly ascending |
| Loader.SortAscending | hamster_data/loader.py:40 | sorting rows with distinct dates orders them strictly by date |
| Loader.PermutationSameElements | hamster_data/loader.py:40 | a permutation has the same rows |
| Loader.SameElementsSameDates | hamster_data/loader.py:40 | the same rows carry the same dates |
| Loader.FirstOccurrencesOfIndices | hamster_data/loader.py:40 | being first occurrences index by index is being first occurrences row by row |
| Loader.CleanedFacts | hamster_data/loader.py:40 | after dedup and sort, dates are strictly ascending, the set of dates is the input's, the rows are a permutation of the deduplicated ones, and each is the first input row with its date |
| Loader.CleanedNonZero | hamster_data/loader.py:40-44 | non-zero closes stay non-zero through cleaning |
| Loader.ReturnsMatchPrices | hamster_data/loader.py:47 | the return column is zero on the first row and the fractional price change after it, one entry per price |
| Loader.ReturnsRebuildPrices | hamster_data/loader.py:47 | compounding each return onto the previous price gives back the price |
| Loader.Rebuild | hamster_data/loader.py:47 | one step of that |
| Loader.CleanBarsColumns | hamster_data/loader.py:40-47 | one bar per cleaned row, dated as the row, priced at its close, with `pct_change` of the closes as returns |
| Loader.LoadedFitsEngine | hamster_data/loader.py:40-47 | the loaded series has strictly ascending dates, returns that are the price changes, and a zero first return |
| Loader.LoadedBarsAreFirstRows | hamster_data/loader.py:40-44 | each bar's price is the close of the first input row with its date, and every input date has a bar |
| Loader.JoinPath | hamster_data/loader.py:23 | `os.path.join` on POSIX paths: an absolute file name replaces the directory; otherwise the file name follows the directory, with one `/` between them unless the directory is empty or already ends in `/` |
| Loader.LoadPrice | hamster_data/loader.py:18-47 | a missing file gives `FileNotFound` with the path; a missing column gives `MissingColumn` with the first missing column; otherwise the result is the cleaned series |
| Loader.LastIndexOf | hamster_data/loader.py:15 | the last position of a character, or -1, with no later occurrence |
| Loader.CsvFilesExact | hamster_data/loader.py:14 | a name is kept if and only if it is listed and ends in `.csv` |
| Loader.CsvSymbol | hamster_data/loader.py:15 | for a `.csv` entry, the symbol is the name without `.csv`, except when the stem is all dots, where the whole name is kept |
| Loader.NoDirectoryNoSymbols | hamster_data/loader.py:11-12 | without the data directory there are no symbols |
| Loader.ListSymbolsComplete | hamster_data/loader.py:14-15 | every `.csv` entry whose stem is not all dots yields its stem as a symbol |
| Loader.ListSymbolsSound | hamster_data/loader.py:14-15 | every symbol plus `.csv` is an entry, or it is a `.csv` entry whose stem is all dots |

## Left out

- The Streamlit page is not modelled: widgets, `st.error`/`st.stop`, metric formatting and the chart (app.py:8-33, 83-86, 95-108). A stopped run is a `Failure` value.
- The file system is replaced by parameters. `os.path.exists` becomes the flags `fileExists` and `dirExists`, `os.listdir` becomes the list `names`, and `pd.read_csv` becomes the parsed `header` and `rows`.
- Exceptions become `Failure` values. The error messages are reduced to the path and to the symbol and column they name.
- `pd.to_datetime` is not modelled: dates are already-parsed day numbers. The same holds for the string dates the range slice is given.
- Prices and returns are mathematical reals: floating-point rounding, infinities and NaN are not modelled.
- Backtest.Evaluate: the CAGR power `equity ** (1 / years) - 1` is not computed, because Dafny reals have no real exponentiation. The report stops at `years`, which the run guarantees is non-zero.
- Backtest.Backtest: `dropna` is assumed to drop only the moving-average warm-up. Rows with a missing value in another column are not modelled.
- Backtest.Backtest: requires an ascending series, which every loaded series is (`Loader.LoadedFitsEngine`). It allows any window of at least 1, where the page's slider offers 10 to 250.
- Loader.Returns: requires non-zero prices. In the source, after a zero close a non-zero close gives an infinite return, and a further zero close gives 0/0 = NaN, which `fillna(0)` turns into 0.
- Loader.CleanBars: requires non-zero closes in every input row, including rows later dropped as duplicates.
- Loader.LoadPrice: has the same requirement as CleanBars on its success path; the missing-file and missing-column paths require nothing.
- Loader.LoadPrice: the association of header cells with row fields is not modelled. Rows arrive as typed `Row` values, with the `astype(float)` conversion already done.
- Loader.LoadPrice: what pandas does with two header cells that normalise to the same name is not modelled.
- Loader.Capitalize: Python's `capitalize` uses Unicode title-case and lower-case mappings; the model maps only ASCII letters.
- Loader.SortByDate: is an insertion sort, where pandas uses quicksort. On the deduplicated rows all dates differ, so the order is the same.
- Loader.JoinPath and Loader.SplitExtRoot: follow POSIX path rules only.

## Findings

| source | as written | input that shows it | evidently intended | confidence | as-written member | corrected member |
|---|---|---|---|---|---|---|
| app.py:37-93 | the guard admits a range with exactly `window` bars; after `dropna` one bar remains, `days` is 0, `years` is 0.0, and `1 / years` raises ZeroDivisionError | any date range holding exactly `window` bars, e.g. window 10 over a range of 10 trading days | such a range is reported as degenerate, and runs that are not refused always have positive elapsed time | not executed | Backtest.ExactWindowLeavesNoTime | Backtest.DegenerateExactlyAtWindow |
