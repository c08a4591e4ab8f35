/**
 * The tidy reshape: each aligned row becomes a row for its own platform and a row labelled
 * Binance carrying the matched baseline price; rows with a NULL price or platform are dropped
 * and the table is sorted by time.
 */
module Reshape {
  import opened Wrappers
  import opened Rows
  import Sorting
  import Pivot

  /** `df_platforms`: each row's fill time, own price and platform, as time, price, platform. */
  function PlatformRows(data: seq<AlignedRow>): seq<TidyRow>
  {
    seq(|data|, i requires 0 <= i < |data| => TidyRow(data[i].fillTime, data[i].wbtcPrice, data[i].platform))
  }

  /** `df_binance`: each row's fill time and Binance price, with the platform set to Binance. */
  function BinanceRows(data: seq<AlignedRow>): seq<TidyRow>
  {
    seq(|data|, i requires 0 <= i < |data| => TidyRow(data[i].fillTime, data[i].wbtcPriceFromBinance, Some(Binance)))
  }

  /** `pd.concat([df_platforms, df_binance], ignore_index=True)`. */
  function Combined(data: seq<AlignedRow>): seq<TidyRow>
  {
    PlatformRows(data) + BinanceRows(data)
  }

  /** The number of rows with a NULL price or platform. */
  function CountMissing(rows: seq<TidyRow>): nat
  {
    if rows == [] then 0
    else (if rows[0].price.None? || rows[0].platform.None? then 1 else 0) + CountMissing(rows[1..])
  }

  /**
   * `dropna(subset=['time', 'price', 'platform'])`: keeps, in order, the rows with every field
   * present (a time is never NULL here).
   */
  function DropMissing(rows: seq<TidyRow>): (r: seq<PlotRow>)
    ensures |r| + CountMissing(rows) == |rows|
    ensures forall p :: p in r <==> TidyRow(p.time, Some(p.price), Some(p.platform)) in rows
  {
    if rows == [] then []
    else
      var t := rows[0];
      var rest := DropMissing(rows[1..]);
      assert rows == [t] + rows[1..];
      if t.price.Some? && t.platform.Some? then [PlotRow(t.time, t.price.value, t.platform.value)] + rest
      else rest
  }

  /** Each complete row survives the drop as often as it occurs; no other row survives. */
  lemma {:induction false} DropMissingMultiplicity(rows: seq<TidyRow>)
    ensures forall p :: multiset(DropMissing(rows))[p] == multiset(rows)[TidyRow(p.time, Some(p.price), Some(p.platform))]
  {
    if rows != [] {
      var t, tail := rows[0], rows[1..];
      assert rows == [t] + tail;
      DropMissingMultiplicity(tail);
      var rest := DropMissing(tail);
      forall p ensures multiset(DropMissing(rows))[p] == multiset(rows)[TidyRow(p.time, Some(p.price), Some(p.platform))] {
        var tp := TidyRow(p.time, Some(p.price), Some(p.platform));
        assert multiset(rows)[tp] == multiset([t])[tp] + multiset(tail)[tp];
        if t.price.Some? && t.platform.Some? {
          var q := PlotRow(t.time, t.price.value, t.platform.value);
          assert DropMissing(rows) == [q] + rest;
          assert multiset(DropMissing(rows))[p] == multiset([q])[p] + multiset(rest)[p];
          assert (q == p) == (t == tp);
        } else {
          assert DropMissing(rows) == rest;
          assert t != tp;
        }
      }
    }
  }

  /** The number of aligned rows whose own price and platform are both present. */
  function CompleteOwnRows(data: seq<AlignedRow>): nat
  {
    if data == [] then 0
    else (if data[0].wbtcPrice.Some? && data[0].platform.Some? then 1 else 0) + CompleteOwnRows(data[1..])
  }

  /** The number of aligned rows that carry a Binance price. */
  function PricedBinanceRows(data: seq<AlignedRow>): nat
  {
    if data == [] then 0
    else (if data[0].wbtcPriceFromBinance.Some? then 1 else 0) + PricedBinanceRows(data[1..])
  }

  /** Incomplete rows of a concatenation are those of its two parts. */
  lemma {:induction false} CountMissingAppend(a: seq<TidyRow>, b: seq<TidyRow>)
    ensures CountMissing(a + b) == CountMissing(a) + CountMissing(b)
  {
    if a != [] {
      assert (a + b)[0] == a[0] && (a + b)[1..] == a[1..] + b;
      CountMissingAppend(a[1..], b);
    } else {
      assert a + b == b;
    }
  }

  /** The incomplete rows of `df_platforms` are the aligned rows lacking their own price or platform. */
  lemma {:induction false} PlatformRowsMissing(data: seq<AlignedRow>)
    ensures CountMissing(PlatformRows(data)) + CompleteOwnRows(data) == |data|
  {
    if data != [] {
      assert PlatformRows(data)[1..] == PlatformRows(data[1..]);
      PlatformRowsMissing(data[1..]);
    }
  }

  /** The incomplete rows of `df_binance` are the aligned rows lacking a Binance price. */
  lemma {:induction false} BinanceRowsMissing(data: seq<AlignedRow>)
    ensures CountMissing(BinanceRows(data)) + PricedBinanceRows(data) == |data|
  {
    if data != [] {
      assert BinanceRows(data)[1..] == BinanceRows(data[1..]);
      BinanceRowsMissing(data[1..]);
    }
  }

  /**
   * After dropping incomplete rows, the long-form table holds one row for each aligned row
   * with its own price and platform, plus one Binance row for each aligned row with a Binance
   * price: at most two rows per aligned row.
   */
  lemma KeptRowsPerAlignedRow(data: seq<AlignedRow>)
    ensures |DropMissing(Combined(data))| == CompleteOwnRows(data) + PricedBinanceRows(data)
    ensures |DropMissing(Combined(data))| <= 2 * |data|
  {
    CountMissingAppend(PlatformRows(data), BinanceRows(data));
    PlatformRowsMissing(data);
    BinanceRowsMissing(data);
  }

  /**
   * The plotting table: sorted by time, holding exactly the complete rows of the concatenated
   * table, two per aligned row less the dropped ones; every row is an aligned row's own
   * observation or its Binance price at the same time.
   */
  method Reshape(filteredData: seq<AlignedRow>) returns (plot: seq<PlotRow>)
    ensures Sorting.SortedBy(plot, PlotTime)
    ensures multiset(plot) == multiset(DropMissing(Combined(filteredData)))
    ensures |plot| == CompleteOwnRows(filteredData) + PricedBinanceRows(filteredData)
    ensures forall row :: row in filteredData && row.wbtcPrice.Some? && row.platform.Some? ==>
      PlotRow(row.fillTime, row.wbtcPrice.value, row.platform.value) in plot
    ensures forall row :: row in filteredData && row.wbtcPriceFromBinance.Some? ==>
      PlotRow(row.fillTime, row.wbtcPriceFromBinance.value, Binance) in plot
    ensures forall p :: p in plot ==>
      exists row :: (row in filteredData && row.fillTime == p.time &&
                     ((row.platform == Some(p.platform) && row.wbtcPrice == Some(p.price)) ||
                      (p.platform == Binance && row.wbtcPriceFromBinance == Some(p.price))))
  {
    var kept := DropMissing(Combined(filteredData));
    KeptRowsPerAlignedRow(filteredData);
    CompleteRowsKept(filteredData);
    KeptRowsFromAlignedRows(filteredData);
    plot := Sorting.SortBy(kept, PlotTime);
    Sorting.SortByMembers(kept, PlotTime);
    assert |plot| == |kept| by {
      assert |multiset(plot)| == |multiset(kept)|;
    }
  }

  /** Each complete observation of an aligned row, its own and its Binance one, survives the drop. */
  lemma CompleteRowsKept(data: seq<AlignedRow>)
    ensures forall row :: row in data && row.wbtcPrice.Some? && row.platform.Some? ==>
      PlotRow(row.fillTime, row.wbtcPrice.value, row.platform.value) in DropMissing(Combined(data))
    ensures forall row :: row in data && row.wbtcPriceFromBinance.Some? ==>
      PlotRow(row.fillTime, row.wbtcPriceFromBinance.value, Binance) in DropMissing(Combined(data))
  {
    var platforms, binance := PlatformRows(data), BinanceRows(data);
    var combined := platforms + binance;
    forall row | row in data && row.wbtcPrice.Some? && row.platform.Some?
      ensures TidyRow(row.fillTime, Some(row.wbtcPrice.value), Some(row.platform.value)) in combined
    {
      var i :| 0 <= i < |data| && data[i] == row;
      assert combined[i] == platforms[i];
    }
    forall row | row in data && row.wbtcPriceFromBinance.Some?
      ensures TidyRow(row.fillTime, Some(row.wbtcPriceFromBinance.value), Some(Binance)) in combined
    {
      var i :| 0 <= i < |data| && data[i] == row;
      assert combined[|data| + i] == binance[i];
    }
  }

  /** Every kept row is an aligned row's own observation or its Binance price, at its fill time. */
  lemma KeptRowsFromAlignedRows(data: seq<AlignedRow>)
    ensures forall p :: p in DropMissing(Combined(data)) ==>
      exists row :: (row in data && row.fillTime == p.time &&
                     ((row.platform == Some(p.platform) && row.wbtcPrice == Some(p.price)) ||
                      (p.platform == Binance && row.wbtcPriceFromBinance == Some(p.price))))
  {
    var platforms, binance := PlatformRows(data), BinanceRows(data);
    var combined := platforms + binance;
    forall p | p in DropMissing(combined)
      ensures exists row :: (row in data && row.fillTime == p.time &&
                             ((row.platform == Some(p.platform) && row.wbtcPrice == Some(p.price)) ||
                              (p.platform == Binance && row.wbtcPriceFromBinance == Some(p.price))))
    {
      var t := TidyRow(p.time, Some(p.price), Some(p.platform));
      var k :| 0 <= k < |combined| && combined[k] == t;
      if k < |data| {
        assert combined[k] == platforms[k];
        assert data[k] in data;
      } else {
        assert combined[k] == binance[k - |data|];
        assert data[k - |data|] in data;
      }
    }
  }

  /** Dropping incomplete rows keeps a table free of duplicate entries. */
  lemma {:induction false} DropMissingNoDuplicates(rows: seq<TidyRow>)
    requires Sorting.DistinctBy(rows, TidyEntry)
    ensures Pivot.NoDuplicateEntries(DropMissing(rows))
  {
    if rows != [] {
      var t := rows[0];
      var tail := rows[1..];
      assert rows == [t] + tail;
      Sorting.DistinctTail(rows, TidyEntry);
      DropMissingNoDuplicates(tail);
      var rest := DropMissing(tail);
      if t.price.Some? && t.platform.Some? {
        var p := PlotRow(t.time, t.price.value, t.platform.value);
        forall q | q in rest ensures PlotEntry(q) != PlotEntry(p) {
          assert TidyRow(q.time, Some(q.price), Some(q.platform)) in tail;
        }
        Sorting.PrependDistinct(p, rest, PlotEntry);
      }
    }
  }

  /**
   * When the aligned rows have distinct fill times and none of them is labelled Binance, the
   * plotting table has at most one row per (time, platform) pair.
   */
  lemma ReshapeNoDuplicates(data: seq<AlignedRow>)
    requires forall i, j :: 0 <= i < j < |data| ==> data[i].fillTime != data[j].fillTime
    requires forall row :: row in data ==> row.platform != Some(Binance)
    ensures Pivot.NoDuplicateEntries(DropMissing(Combined(data)))
  {
    var c := Combined(data);
    var n := |data|;
    forall i, j | 0 <= i < j < |c| ensures TidyEntry(c[i]) != TidyEntry(c[j]) {
      if j < n {
        assert c[i].time == data[i].fillTime && c[j].time == data[j].fillTime;
      } else if i >= n {
        assert c[i].time == data[i - n].fillTime && c[j].time == data[j - n].fillTime;
      } else {
        assert data[i] in data;
        assert c[i].platform == data[i].platform && c[j].platform == Some(Binance);
      }
    }
    DropMissingNoDuplicates(c);
  }
}
