# WBTC price comparison dashboard: alignment and reshape model

The dashboard compares the WBTC/USDT prices of several trading venues (UniswapX, Hashflow,
Cowswap) against Binance, the baseline venue. For a date range chosen by the user, it does the following:

1. It refuses a start date after the end date.
2. It runs one warehouse query that joins every fill of the comparison table to the nearest
   Binance quote in time. The quote must lie within 1800 seconds of the fill. The query keeps
   one row per fill time.
3. It stops when the query returns nothing.
4. It masks the rows by the calendar date of their fill time. It stops again when nothing is left.
5. It reshapes the rows into a long-form table with two rows per aligned row: the venue's own
   price and the matched Binance price. It drops rows with a NULL price or platform and sorts
   the table by time.
6. It pivots the table wide, with one row per time and one column per platform, for the chart's tooltip.

This project models steps 1–6 in Dafny:

- `rows.dfy`: the tables. Timestamps are whole seconds since the epoch. A calendar date is
  `t / 86400`, using floor division. `TIMESTAMP(date)` is `date * 86400`. Prices are integers
  that are only carried through. Nullable columns are `Option`. Platforms are a small datatype.
- `alignment.dfy`: the query's meaning. `IsAlignment` is the relational reading of the SQL:
  any nearest quote, any fill of a shared fill time. `Align` is a deterministic function, and
  `AlignSatisfiesQuery` proves that `Align` has that meaning.
  `AlignmentDeterminedUpToTies` proves that any two outputs with that meaning differ only in
  how ties are broken.
- `datemask.dfy`: the date mask. It also proves that the mask drops nothing from the query's output.
- `reshape.dfy`: the tidy reshape. It is a method that computes the complete rows of the
  concatenated table and then sorts them. It is proved against the functions for the column
  selections, the concatenation and the NULL drop.
- `pivot.dfy`: the pivot. It returns `None` on a repeated (time, platform) pair, where pandas
  raises. It proves the round trip back to long form.
- `dashboard.dfy`: one request, with its halts, as a `Result`.
- `scenarios.dfy`: concrete requests (within tolerance, outside tolerance, two platforms at one instant).
- `sorting.dfy`: a sort by an integer key, whose contract states only order and permutation. It also
  holds the strict-order and distinct-key predicates that the other files state over their own key columns.

Three consequences of the code as written, which the model keeps:

- The query partitions on `fill_time` alone. Fills of different platforms at the same instant
  therefore collapse to a single aligned row, not one row per (platform, fill time).
- The reshape drops the platform row and the Binance row of an aligned row independently. The
  long-form row count is therefore `2n` minus the number of incomplete tidy rows, not
  `2 * (n - rows with any NULL)`.
- The window is `[TIMESTAMP(start), TIMESTAMP(end)]`, so it ends at midnight at the start of the
  end date. The date mask would admit the whole end date, but the query has already removed
  everything after that midnight.

Two choices are fixed where the SQL leaves them open:

- Among equally near quotes, `Closest` picks the earliest quote time, then the first in table order.
- Among fills that share a fill time, the first in table order represents the partition.

## Model

| member | source | states |
|---|---|---|
| `Alignment.ComparisonData` | streamlit_app.py:60-67 | A comparison row takes part exactly when its fill time is non-NULL and lies in `[start*86400, end*86400]`, inclusive; its platform, price and time are carried over unchanged |
| `Alignment.BinanceData` | streamlit_app.py:68-74 | A Binance row takes part exactly when its time is non-NULL and lies in the same inclusive window; its price and time are carried over unchanged |
| `Alignment.Closest` | streamlit_app.py:82-85 | None exactly when no quote is within 1800 s of the fill time; otherwise a quote from the table within 1800 s that minimises the absolute time difference over all quotes, earliest among equally near ones |
| `Alignment.AlignFromOrdered` | streamlit_app.py:82-95 | The output is in strictly increasing fill-time order: ordered by `fill_time`, and at most one row per fill time, even for fills of different platforms |
| `Alignment.AlignFromSound` | streamlit_app.py:76-94 | Every output row carries a fill's platform, fill time and price unchanged, together with the quote `Closest` picks for that fill time |
| `Alignment.AlignFromComplete` | streamlit_app.py:83-94 | Every fill with a quote within 1800 s has its fill time in the output; every output row's fill time has a quote within 1800 s, so a fill without one yields no row |
| `Alignment.AlignSatisfiesQuery` | streamlit_app.py:59-95 | The query output has the relational meaning of the SQL (ordered, one row per fill time, unchanged fill columns, nearest quote within tolerance, every matchable fill time present); all its times lie in the window; every quote wins the tie-break |
| `Alignment.AlignmentDeterminedUpToTies` | streamlit_app.py:82-94 | Any two outputs with the query's meaning have the same length, the same fill time at each position and the same time distance at each position: ties are the only freedom |
| `DateMask.Mask` | streamlit_app.py:118-119 | A row is kept exactly when the calendar date of its fill time lies between the start and end dates inclusive; each kept row keeps its multiplicity and every other row is dropped |
| `DateMask.DateOfWindowedTimestamp` | streamlit_app.py:66 | A timestamp in `[start*86400, end*86400]` falls on a date in `[start, end]` |
| `DateMask.MaskKeepsWindowedRows` | streamlit_app.py:117-123 | On rows whose fill times lie in the query window, the mask is the identity |
| `Reshape.DropMissing` | streamlit_app.py:135 | A long-form row is kept exactly when its price and platform are present; the kept count is the row count minus the incomplete rows |
| `Reshape.DropMissingMultiplicity` | streamlit_app.py:135 | Each complete row survives the drop as often as it occurs in the concatenated table, and no other row survives |
| `Reshape.KeptRowsPerAlignedRow` | streamlit_app.py:126-135 | After the concatenation and the NULL drop, the long-form table has one row per aligned row with its own price and platform plus one Binance row per aligned row with a Binance price, so at most `2n` rows |
| `Reshape.Reshape` | streamlit_app.py:126-144 | The plotting table is sorted by time and is a permutation of the complete concatenated rows. Its size is the number of complete own observations plus the number of Binance prices, that is `2n` minus the dropped rows. It contains each complete platform row and Binance row, and nothing else |
| `Reshape.ReshapeNoDuplicates` | streamlit_app.py:126-135 | Aligned rows with distinct fill times and no Binance-labelled platform yield a long-form table with no repeated (time, platform) pair |
| `Sorting.SortBy` | streamlit_app.py:144 | The result is in nondecreasing key order and is a permutation of the input |
| `Pivot.NoDuplicatesPermutation` | streamlit_app.py:144 | Reordering a table neither creates nor removes a repeated (time, platform) pair |
| `Pivot.PivotCorrect` | streamlit_app.py:153 | The pivot succeeds exactly when no (time, platform) pair repeats; it then has one non-empty wide row per time in increasing order, whose cells are exactly the table's rows |
| `Pivot.PivotRoundTrip` | streamlit_app.py:153 | Without repeated pairs, pivoting wide and melting back gives exactly the table's rows |
| `Pivot.PivotOneRowPerTime` | streamlit_app.py:153 | The wide table has a row for a time exactly when the long-form table has a row at that time |
| `Dashboard.GenerateGraph` | streamlit_app.py:52-153 | Halts exactly on reversed dates (before any query), exactly on an empty query result, and exactly when the query's complete tidy rows repeat a (time, platform) pair, where the pivot raises; never on the empty-mask check. On success the rows have the query's meaning, the plot is sorted and complete, and the wide table is its pivot. Without Binance-labelled comparison rows, a request with data succeeds |
| `Dashboard.NoBinanceFillsNoDuplicates` | streamlit_app.py:82-153 | If no comparison row is labelled Binance, any sorted plotting table built from the query output has at most one row per (time, platform) pair and its pivot is defined |
| `Scenarios.FillWithinTolerance` | streamlit_app.py:82-85 | A fill 600 s after the only quote is aligned to it |
| `Scenarios.FillOutsideTolerance` | streamlit_app.py:84-85 | A fill 3600 s from the only quote yields no row |
| `Scenarios.SharedFillTimeKeepsOneRow` | streamlit_app.py:82-94 | Two platforms' fills at one instant give one aligned row; equally near quotes resolve to the earlier one |

## Left out

- Page setup, widgets, the button, warning and error messages, the raw-data expander and `st.stop`. The halts are modelled as `Failure` values of `Dashboard.GenerateGraph`.
- The BigQuery client, credentials and query execution, including the Arrow and pandas conversions. The query is modelled by its meaning over in-memory tables.
- `get_min_max_date`. It only bounds the date pickers.
- The 600-second result cache. It is memoisation with no effect on results.
- The floating-point axis bounds `price_min` / `price_max`. They are display only.
- The categorical relabelling of platforms. A label outside Binance, Cowswap, Hashflow and UniswapX becomes NaN there; the model keeps it as `Other`.
- The colour table and all chart, selection and tooltip formatting. These belong to the rendering library.
- Sub-second timestamps. Times are whole seconds, so `TIMESTAMP_DIFF(..., SECOND)` truncation is not modelled.
- Decimal prices. Prices are integers and are never computed on.
- The NULL test on the tidy `time` column. Every fill time that survives the window filter is non-NULL, so the model's tidy time column is not nullable.
- The `pd.to_datetime` conversions. They do not change a timestamp's value.
- `Reshape.Reshape`: it states sorted-by-time and permutation only, leaving order among equal times open as `sort_values` does. The model's own sort happens to be stable.
- `Alignment.AlignSatisfiesQuery`: which of several fills at one fill time represents the partition is fixed by the model (the first in table order). The SQL leaves it arbitrary, and `IsAlignment` only asks for some fill with that time.
- The pivot's `DuplicateEntries` halt stands for the exception pandas raises. The source does not catch it.
