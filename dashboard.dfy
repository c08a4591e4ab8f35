/**
 * One request of the dashboard: check the dates, run the aligned query, stop on an empty
 * result, apply the date mask, stop on an empty masked result, reshape, and pivot.
 */
module Dashboard {
  import opened Wrappers
  import opened Rows
  import Sorting
  import Alignment
  import DateMask
  import Reshape
  import Pivot

  /** Why a request stopped before a chart could be drawn. */
  datatype Halt =
    | StartAfterEnd      // the start date is after the end date; no query runs
    | NoData             // the aligned query returned no rows
    | NoDataInRange      // no row survived the date mask
    | DuplicateEntries   // the pivot met a repeated (time, platform) pair and raised

  /** What a successful request draws: the raw rows, the long-form table and the wide table. */
  datatype Chart = Chart(filteredData: seq<AlignedRow>, plot: seq<PlotRow>, wide: seq<WideRow>)

  /**
   * A request for the dates `startDate` .. `endDate` over the two tables. It halts exactly
   * when the dates are reversed, when the query finds nothing, or when the query's complete
   * tidy rows repeat a (time, platform) pair, where the pivot raises; the halt on an empty
   * masked result never happens. On success the raw rows have the meaning of the query, the
   * plotting table is sorted and holds exactly their complete tidy rows, and the wide table is
   * their pivot. When no comparison row is labelled Binance, a request with data always succeeds.
   */
  method GenerateGraph(comparison: seq<ComparisonRow>, binance: seq<BinanceRow>, startDate: int, endDate: int)
    returns (r: Result<Chart, Halt>)
    ensures r == Failure(StartAfterEnd) <==> startDate > endDate
    ensures startDate <= endDate ==> (r == Failure(NoData) <==> Alignment.Align(comparison, binance, startDate, endDate) == [])
    ensures r != Failure(NoDataInRange)
    ensures r == Failure(DuplicateEntries) <==>
      && startDate <= endDate
      && Alignment.Align(comparison, binance, startDate, endDate) != []
      && !Pivot.NoDuplicateEntries(Reshape.DropMissing(Reshape.Combined(Alignment.Align(comparison, binance, startDate, endDate))))
    ensures r.Success? ==>
      && r.value.filteredData != []
      && Alignment.IsAlignment(Alignment.ComparisonData(comparison, startDate, endDate),
                               Alignment.BinanceData(binance, startDate, endDate), r.value.filteredData)
      && Sorting.SortedBy(r.value.plot, PlotTime)
      && multiset(r.value.plot) == multiset(Reshape.DropMissing(Reshape.Combined(r.value.filteredData)))
      && Pivot.PivotWide(r.value.plot) == Some(r.value.wide)
    ensures (&& startDate <= endDate
             && Alignment.Align(comparison, binance, startDate, endDate) != []
             && forall c :: c in comparison ==> c.platform != Some(Binance))
            ==> r.Success?
  {
    if startDate > endDate {
      return Failure(StartAfterEnd);
    }
    var data := Alignment.Align(comparison, binance, startDate, endDate);
    if data == [] {
      return Failure(NoData);
    }
    Alignment.AlignSatisfiesQuery(comparison, binance, startDate, endDate);
    DateMask.MaskKeepsWindowedRows(data, startDate, endDate);
    var filteredData := DateMask.Mask(data, startDate, endDate);
    if filteredData == [] {
      return Failure(NoDataInRange);
    }
    var plot := Reshape.Reshape(filteredData);
    if forall c :: c in comparison ==> c.platform != Some(Binance) {
      NoBinanceFillsNoDuplicates(comparison, binance, startDate, endDate, plot);
    }
    var kept := Reshape.DropMissing(Reshape.Combined(data));
    if Pivot.NoDuplicateEntries(kept) {
      Pivot.NoDuplicatesPermutation(kept, plot);
    } else if Pivot.NoDuplicateEntries(plot) {
      Pivot.NoDuplicatesPermutation(plot, kept);
    }
    var wide := Pivot.PivotWide(plot);
    if wide.None? {
      return Failure(DuplicateEntries);
    }
    r := Success(Chart(filteredData, plot, wide.value));
  }

  /**
   * When no comparison row is labelled Binance, any sorted copy of the plotting table built from
   * the query's output has at most one row per (time, platform) pair, so the pivot succeeds.
   */
  lemma NoBinanceFillsNoDuplicates(comparison: seq<ComparisonRow>, binance: seq<BinanceRow>, startDate: int, endDate: int,
                                   plot: seq<PlotRow>)
    requires forall c :: c in comparison ==> c.platform != Some(Binance)
    requires multiset(plot) ==
      multiset(Reshape.DropMissing(Reshape.Combined(Alignment.Align(comparison, binance, startDate, endDate))))
    ensures Pivot.NoDuplicateEntries(plot)
    ensures Pivot.PivotWide(plot).Some?
  {
    var data := Alignment.Align(comparison, binance, startDate, endDate);
    Alignment.AlignSatisfiesQuery(comparison, binance, startDate, endDate);
    forall row | row in data ensures row.platform != Some(Binance) {
      assert Alignment.FillOf(row) in Alignment.ComparisonData(comparison, startDate, endDate);
    }
    Reshape.ReshapeNoDuplicates(data);
    Pivot.NoDuplicatesPermutation(Reshape.DropMissing(Reshape.Combined(data)), plot);
    Pivot.PivotCorrect(plot);
  }
}
