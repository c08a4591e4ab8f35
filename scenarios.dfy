/** Concrete requests with start date 0 and end date 1: the window runs from midnight of date 0 to midnight of date 1. */
module Scenarios {
  import opened Wrappers
  import opened Rows
  import Sorting
  import Alignment

  /** A UniswapX fill at 12:10 and a Binance quote at 12:00 are 600 seconds apart: one aligned row. */
  lemma FillWithinTolerance()
    ensures Alignment.Align([ComparisonRow(Some(UniswapX), Some(50010), Some(43800))],
                            [BinanceRow(Some(50000), Some(43200))], 0, 1)
         == [AlignedRow(Some(UniswapX), 43800, Some(50010), Some(50000), 43200)]
  {
    var f := Fill(Some(UniswapX), Some(50010), 43800);
    var q := Quote(Some(50000), 43200);
    assert Alignment.ComparisonData([ComparisonRow(Some(UniswapX), Some(50010), Some(43800))], 0, 1) == [f];
    assert Alignment.BinanceData([BinanceRow(Some(50000), Some(43200))], 0, 1) == [q];
    assert Sorting.SortBy([f], FillTime) == [f];
    assert Alignment.Closest(43800, [q]) == Some(q);
    assert Alignment.AlignFrom([f], [q], None) == [AlignedRow(Some(UniswapX), 43800, Some(50010), Some(50000), 43200)];
  }

  /** A fill at 13:00 and the only quote at 12:00 are 3600 seconds apart: no aligned row. */
  lemma FillOutsideTolerance()
    ensures Alignment.Align([ComparisonRow(Some(UniswapX), Some(50010), Some(46800))],
                            [BinanceRow(Some(50000), Some(43200))], 0, 1) == []
  {
    var f := Fill(Some(UniswapX), Some(50010), 46800);
    var q := Quote(Some(50000), 43200);
    assert Alignment.ComparisonData([ComparisonRow(Some(UniswapX), Some(50010), Some(46800))], 0, 1) == [f];
    assert Alignment.BinanceData([BinanceRow(Some(50000), Some(43200))], 0, 1) == [q];
    assert Sorting.SortBy([f], FillTime) == [f];
    assert Alignment.Closest(46800, [q]) == None;
    assert Alignment.AlignFrom([f], [q], None) == [];
  }

  const SharedTable: seq<ComparisonRow> :=
    [ComparisonRow(Some(UniswapX), Some(50010), Some(43200)), ComparisonRow(Some(Hashflow), Some(50020), Some(43200))]
  const SharedBinance: seq<BinanceRow> :=
    [BinanceRow(Some(50005), Some(43800)), BinanceRow(Some(49995), Some(42600))]
  const SharedFills: seq<Fill> :=
    [Fill(Some(UniswapX), Some(50010), 43200), Fill(Some(Hashflow), Some(50020), 43200)]
  const SharedQuotes: seq<Quote> :=
    [Quote(Some(50005), 43800), Quote(Some(49995), 42600)]

  /** Both fills at 12:00 and both quotes (12:10 and 11:50) lie in the window. */
  lemma SharedWindowed()
    ensures Alignment.ComparisonData(SharedTable, 0, 1) == SharedFills
    ensures Alignment.BinanceData(SharedBinance, 0, 1) == SharedQuotes
  {
    assert SharedTable[1..] == [SharedTable[1]] && SharedBinance[1..] == [SharedBinance[1]];
    assert Alignment.ComparisonData([SharedTable[1]], 0, 1) == [SharedFills[1]];
    assert Alignment.BinanceData([SharedBinance[1]], 0, 1) == [SharedQuotes[1]];
  }

  /** Sorting fills that share their fill time keeps their table order. */
  lemma SharedSorted()
    ensures Sorting.SortBy(SharedFills, FillTime) == SharedFills
  {
    assert SharedFills[1..] == [SharedFills[1]];
    assert Sorting.SortBy([SharedFills[1]], FillTime) == [SharedFills[1]];
  }

  /** The quotes 600 seconds before and after 12:00 tie; the earlier one wins. */
  lemma SharedClosest()
    ensures Alignment.Closest(43200, SharedQuotes) == Some(SharedQuotes[1])
  {
    assert SharedQuotes[1..] == [SharedQuotes[1]];
    assert Alignment.Closest(43200, [SharedQuotes[1]]) == Some(SharedQuotes[1]);
  }

  /**
   * Fills of two platforms at the same instant share one partition: only one aligned row is
   * kept, and with equally near quotes at 11:50 and 12:10 the earlier one is chosen.
   */
  lemma SharedFillTimeKeepsOneRow()
    ensures Alignment.Align(SharedTable, SharedBinance, 0, 1)
         == [AlignedRow(Some(UniswapX), 43200, Some(50010), Some(49995), 42600)]
  {
    SharedWindowed();
    SharedSorted();
    SharedClosest();
    assert SharedFills[1..] == [SharedFills[1]];
    assert Alignment.AlignFrom([SharedFills[1]], SharedQuotes, Some(43200)) == [];
  }
}
