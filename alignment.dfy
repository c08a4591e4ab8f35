/**
 * The aligned query: every fill of the comparison table in the date window is joined to
 * the in-window Binance quote nearest to it in time, within a tolerance of 1800 seconds,
 * keeping one row per fill time, ordered by fill time.
 */
module Alignment {
  import opened Wrappers
  import opened Rows
  import Sorting

  /** CTE `comparison_data`: the comparison rows whose fill time lies in the window. */
  function ComparisonData(table: seq<ComparisonRow>, startDate: int, endDate: int): (r: seq<Fill>)
    ensures forall c :: c in table && c.fillTime.Some? && Between(c.fillTime.value, startDate, endDate) ==>
      Fill(c.platform, c.wbtcPrice, c.fillTime.value) in r
    ensures forall f :: f in r ==>
      Between(f.fillTime, startDate, endDate) && ComparisonRow(f.platform, f.wbtcPrice, Some(f.fillTime)) in table
  {
    if table == [] then []
    else
      var c := table[0];
      var rest := ComparisonData(table[1..], startDate, endDate);
      assert table == [c] + table[1..];
      if c.fillTime.Some? && Between(c.fillTime.value, startDate, endDate)
      then [Fill(c.platform, c.wbtcPrice, c.fillTime.value)] + rest
      else rest
  }

  /** CTE `binance_data`: the Binance rows whose time lies in the window. */
  function BinanceData(table: seq<BinanceRow>, startDate: int, endDate: int): (r: seq<Quote>)
    ensures forall b :: b in table && b.time.Some? && Between(b.time.value, startDate, endDate) ==>
      Quote(b.price, b.time.value) in r
    ensures forall q :: q in r ==>
      Between(q.time, startDate, endDate) && BinanceRow(q.price, Some(q.time)) in table
  {
    if table == [] then []
    else
      var b := table[0];
      var rest := BinanceData(table[1..], startDate, endDate);
      assert table == [b] + table[1..];
      if b.time.Some? && Between(b.time.value, startDate, endDate)
      then [Quote(b.price, b.time.value)] + rest
      else rest
  }

  /** The join condition: `q` lies within the tolerance of fill time `t`. */
  predicate Within(t: int, q: Quote) { Dist(t, q.time) <= Tolerance }

  /** Some quote of `quotes` can be joined to fill time `t`. */
  predicate HasCandidate(t: int, quotes: seq<Quote>) {
    exists q :: q in quotes && Within(t, q)
  }

  /** What `ROW_NUMBER() ... ORDER BY ABS(diff)` = 1 promises: a joinable quote at least as near as any other. */
  ghost predicate Nearest(t: int, q: Quote, quotes: seq<Quote>) {
    q in quotes && Within(t, q) && forall q' :: q' in quotes ==> Dist(t, q.time) <= Dist(t, q'.time)
  }

  /** The model's tie-break: `a` is strictly nearer to `t` than `b`, or as near and no later. */
  predicate NoFartherThan(t: int, a: Quote, b: Quote) {
    Dist(t, a.time) < Dist(t, b.time) || (Dist(t, a.time) == Dist(t, b.time) && a.time <= b.time)
  }

  /**
   * The quote joined to fill time `t`: the nearest one within the tolerance; among equally
   * near quotes the earliest, and among those the first in table order. None when no quote
   * is within the tolerance.
   */
  function Closest(t: int, quotes: seq<Quote>): (r: Option<Quote>)
    ensures r.None? <==> !HasCandidate(t, quotes)
    ensures r.Some? ==> r.value in quotes && Within(t, r.value)
    ensures r.Some? ==> forall q :: q in quotes ==> NoFartherThan(t, r.value, q)
  {
    if quotes == [] then None
    else
      var q := quotes[0];
      var rest := Closest(t, quotes[1..]);
      assert quotes == [q] + quotes[1..];
      if !Within(t, q) then rest
      else if rest.None? || NoFartherThan(t, q, rest.value) then Some(q)
      else rest
  }

  /**
   * Walks the fills in fill-time order; the first fill of each fill time is joined to its
   * closest quote, the other fills of that time are skipped (`PARTITION BY fill_time`).
   * `prev` is the fill time of the fill handled last.
   */
  function AlignFrom(fills: seq<Fill>, quotes: seq<Quote>, prev: Option<int>): seq<AlignedRow>
  {
    if fills == [] then []
    else
      var f := fills[0];
      if prev == Some(f.fillTime) then AlignFrom(fills[1..], quotes, prev)
      else
        var rest := AlignFrom(fills[1..], quotes, Some(f.fillTime));
        match Closest(f.fillTime, quotes)
        case None => rest
        case Some(q) => [AlignedRow(f.platform, f.fillTime, f.wbtcPrice, q.price, q.time)] + rest
  }

  /** The aligned query of the dashboard for the dates `startDate` .. `endDate`. */
  function Align(comparison: seq<ComparisonRow>, binance: seq<BinanceRow>, startDate: int, endDate: int): seq<AlignedRow>
  {
    AlignFrom(Sorting.SortBy(ComparisonData(comparison, startDate, endDate), FillTime),
              BinanceData(binance, startDate, endDate), None)
  }

  /** The comparison-side columns of an aligned row. */
  function FillOf(row: AlignedRow): Fill { Fill(row.platform, row.wbtcPrice, row.fillTime) }

  /** The Binance-side columns of an aligned row. */
  function QuoteOf(row: AlignedRow): Quote { Quote(row.wbtcPriceFromBinance, row.binanceTime) }

  /**
   * The relational meaning of the query on the windowed `fills` and `quotes`: output ordered by
   * fill time with one row per fill time; each row is a fill, unchanged, with a nearest quote
   * within the tolerance; every fill that has a quote within the tolerance has its fill time
   * in the output. Which quote wins a tie and which fill represents a shared fill time is left open.
   */
  ghost predicate IsAlignment(fills: seq<Fill>, quotes: seq<Quote>, out: seq<AlignedRow>) {
    Sorting.StrictlySortedBy(out, AlignedTime) && MatchedRows(fills, quotes, out) && CoversFills(fills, quotes, out)
  }

  /** Each row is a fill, unchanged, joined to a nearest quote within the tolerance. */
  ghost predicate MatchedRows(fills: seq<Fill>, quotes: seq<Quote>, out: seq<AlignedRow>) {
    forall row :: row in out ==> FillOf(row) in fills && Nearest(row.fillTime, QuoteOf(row), quotes)
  }

  /** Every fill with a quote within the tolerance has its fill time in the output. */
  ghost predicate CoversFills(fills: seq<Fill>, quotes: seq<Quote>, out: seq<AlignedRow>) {
    forall f :: f in fills && HasCandidate(f.fillTime, quotes) ==>
      exists row :: row in out && row.fillTime == f.fillTime
  }

  /** Output rows come in strictly increasing fill-time order, after `prev`. */
  lemma {:induction false} AlignFromOrdered(fills: seq<Fill>, quotes: seq<Quote>, prev: Option<int>)
    requires Sorting.SortedBy(fills, FillTime)
    requires prev.Some? ==> forall f :: f in fills ==> prev.value <= f.fillTime
    ensures Sorting.StrictlySortedBy(AlignFrom(fills, quotes, prev), AlignedTime)
    ensures prev.Some? ==> forall row :: row in AlignFrom(fills, quotes, prev) ==> prev.value < row.fillTime
  {
    if fills != [] {
      var f := fills[0];
      var tail := fills[1..];
      Sorting.SortedTail(fills, FillTime);
      if prev == Some(f.fillTime) {
        AlignFromOrdered(tail, quotes, prev);
      } else {
        AlignFromOrdered(tail, quotes, Some(f.fillTime));
        var rest := AlignFrom(tail, quotes, Some(f.fillTime));
        assert prev.Some? ==> prev.value < f.fillTime by {
          assert f in fills;
        }
        var c := Closest(f.fillTime, quotes);
        if c.Some? {
          var row := AlignedRow(f.platform, f.fillTime, f.wbtcPrice, c.value.price, c.value.time);
          assert AlignFrom(fills, quotes, prev) == [row] + rest;
          assert rest != [] ==> rest[0] in rest;
          Sorting.PrependStrictlySorted(row, rest, AlignedTime);
        } else {
          assert AlignFrom(fills, quotes, prev) == rest;
        }
      }
    }
  }

  /** Every output row is a fill, unchanged, joined to the quote `Closest` picks for its fill time. */
  lemma {:induction false} AlignFromSound(fills: seq<Fill>, quotes: seq<Quote>, prev: Option<int>)
    ensures forall row :: row in AlignFrom(fills, quotes, prev) ==>
      && FillOf(row) in fills
      && Closest(row.fillTime, quotes) == Some(QuoteOf(row))
  {
    if fills != [] {
      var f := fills[0];
      assert fills == [f] + fills[1..];
      if prev == Some(f.fillTime) {
        AlignFromSound(fills[1..], quotes, prev);
      } else {
        AlignFromSound(fills[1..], quotes, Some(f.fillTime));
      }
    }
  }

  /**
   * Every fill with a quote within the tolerance has its fill time in the output, unless it is
   * `prev`; and no output row has a fill time without such a quote.
   */
  lemma {:induction false} AlignFromComplete(fills: seq<Fill>, quotes: seq<Quote>, prev: Option<int>)
    ensures forall f :: f in fills && Some(f.fillTime) != prev && HasCandidate(f.fillTime, quotes) ==>
      exists row :: row in AlignFrom(fills, quotes, prev) && row.fillTime == f.fillTime
    ensures forall row :: row in AlignFrom(fills, quotes, prev) ==> HasCandidate(row.fillTime, quotes)
  {
    AlignFromSound(fills, quotes, prev);
    if fills != [] {
      var f := fills[0];
      assert fills == [f] + fills[1..];
      if prev == Some(f.fillTime) {
        AlignFromComplete(fills[1..], quotes, prev);
      } else {
        var tail := fills[1..];
        AlignFromComplete(tail, quotes, Some(f.fillTime));
        var rest := AlignFrom(tail, quotes, Some(f.fillTime));
        var c := Closest(f.fillTime, quotes);
        if c.Some? {
          var row := AlignedRow(f.platform, f.fillTime, f.wbtcPrice, c.value.price, c.value.time);
          assert AlignFrom(fills, quotes, prev) == [row] + rest;
        } else {
          assert AlignFrom(fills, quotes, prev) == rest;
          assert !HasCandidate(f.fillTime, quotes);
        }
      }
    }
  }

  /**
   * The model's query output meets the relational meaning of the SQL; every row's fill time and
   * Binance time lie in the window, and every row's quote wins the tie-break.
   */
  lemma AlignSatisfiesQuery(comparison: seq<ComparisonRow>, binance: seq<BinanceRow>, startDate: int, endDate: int)
    ensures var fills := ComparisonData(comparison, startDate, endDate);
      var quotes := BinanceData(binance, startDate, endDate);
      var out := Align(comparison, binance, startDate, endDate);
      && IsAlignment(fills, quotes, out)
      && (forall row :: row in out ==>
            Between(row.fillTime, startDate, endDate) && Between(row.binanceTime, startDate, endDate))
      && (forall row :: row in out ==> forall q :: q in quotes ==> NoFartherThan(row.fillTime, QuoteOf(row), q))
  {
    var fills := ComparisonData(comparison, startDate, endDate);
    var sorted := Sorting.SortBy(fills, FillTime);
    Sorting.SortByMembers(fills, FillTime);
    var quotes := BinanceData(binance, startDate, endDate);
    AlignFromOrdered(sorted, quotes, None);
    AlignFromSound(sorted, quotes, None);
    AlignFromComplete(sorted, quotes, None);
  }

  /** The fill-time column of an output. */
  function FillTimes(out: seq<AlignedRow>): seq<int>
  {
    seq(|out|, i requires 0 <= i < |out| => out[i].fillTime)
  }

  /** Two strictly increasing sequences holding the same values are equal. */
  lemma {:induction false} IncreasingUnique(a: seq<int>, b: seq<int>)
    requires forall i, j :: 0 <= i < j < |a| ==> a[i] < a[j]
    requires forall i, j :: 0 <= i < j < |b| ==> b[i] < b[j]
    requires forall x :: x in a <==> x in b
    ensures a == b
  {
    assert a != [] ==> a[0] in a;
    assert b != [] ==> b[0] in b;
    if a != [] && b != [] {
      assert a[0] in b && b[0] in a;
      assert a[0] == b[0];
      var a', b' := a[1..], b[1..];
      forall x ensures x in a' <==> x in b' {
        if x in a' {
          var i :| 0 <= i < |a'| && a'[i] == x;
          assert a[i + 1] == x && x in a;
          var k :| 0 <= k < |b| && b[k] == x;
          assert b'[k - 1] == x;
        }
        if x in b' {
          var i :| 0 <= i < |b'| && b'[i] == x;
          assert b[i + 1] == x && x in b;
          var k :| 0 <= k < |a| && a[k] == x;
          assert a'[k - 1] == x;
        }
      }
      IncreasingUnique(a', b');
      assert a == [a[0]] + a' && b == [b[0]] + b';
    }
  }

  /** The fill times of one output with the meaning of the query all occur in another. */
  lemma AlignedTimesCovered(fills: seq<Fill>, quotes: seq<Quote>, a: seq<AlignedRow>, b: seq<AlignedRow>)
    requires MatchedRows(fills, quotes, a) && CoversFills(fills, quotes, b)
    ensures forall x :: x in FillTimes(a) ==> x in FillTimes(b)
  {
    forall x | x in FillTimes(a) ensures x in FillTimes(b) {
      var i :| 0 <= i < |a| && FillTimes(a)[i] == x;
      assert a[i] in a;
      var f := FillOf(a[i]);
      assert f in fills && QuoteOf(a[i]) in quotes && Within(x, QuoteOf(a[i]));
      assert HasCandidate(f.fillTime, quotes);
      var row :| row in b && row.fillTime == x;
      var k :| 0 <= k < |b| && b[k] == row;
      assert FillTimes(b)[k] == x;
    }
  }

  /**
   * The query's result is determined up to its ties: any two outputs with the meaning of the
   * query have the same length, the same fill time at every position, and at every position
   * the same distance between fill time and Binance time.
   */
  lemma AlignmentDeterminedUpToTies(fills: seq<Fill>, quotes: seq<Quote>, a: seq<AlignedRow>, b: seq<AlignedRow>)
    requires IsAlignment(fills, quotes, a) && IsAlignment(fills, quotes, b)
    ensures |a| == |b|
    ensures forall i :: 0 <= i < |a| ==>
      a[i].fillTime == b[i].fillTime && Dist(a[i].fillTime, a[i].binanceTime) == Dist(b[i].fillTime, b[i].binanceTime)
  {
    AlignedTimesCovered(fills, quotes, a, b);
    AlignedTimesCovered(fills, quotes, b, a);
    IncreasingUnique(FillTimes(a), FillTimes(b));
    forall i | 0 <= i < |a|
      ensures a[i].fillTime == b[i].fillTime
      ensures Dist(a[i].fillTime, a[i].binanceTime) == Dist(b[i].fillTime, b[i].binanceTime)
    {
      assert FillTimes(a)[i] == FillTimes(b)[i];
      assert a[i] in a && b[i] in b;
      assert Nearest(a[i].fillTime, QuoteOf(a[i]), quotes) && Nearest(b[i].fillTime, QuoteOf(b[i]), quotes);
    }
  }
}
