/**
 * The wide table behind the chart's tooltip: one row per distinct time, one price column per
 * platform, the cell absent where that platform has no price at exactly that time.
 */
module Pivot {
  import opened Wrappers
  import opened Rows
  import Sorting

  /** No two rows share both their time and their platform. */
  predicate NoDuplicateEntries(rows: seq<PlotRow>) {
    Sorting.DistinctBy(rows, PlotEntry)
  }

  /** Folds a table sorted by time into one wide row per run of equal times. */
  function Group(sorted: seq<PlotRow>): seq<WideRow>
  {
    if sorted == [] then []
    else
      var r := sorted[0];
      var rest := Group(sorted[1..]);
      if rest != [] && rest[0].time == r.time
      then [WideRow(r.time, rest[0].prices[r.platform := r.price])] + rest[1..]
      else [WideRow(r.time, map[r.platform := r.price])] + rest
  }

  /**
   * `pivot(index='time', columns='platform', values='price')`: the wide table, ordered by
   * time, or None when some (time, platform) pair occurs twice, where pandas raises.
   */
  function PivotWide(rows: seq<PlotRow>): Option<seq<WideRow>>
  {
    if NoDuplicateEntries(rows) then Some(Group(Sorting.SortBy(rows, PlotTime))) else None
  }

  /** The inverse reshape (`melt`): every present cell of the wide table as a long-form row. */
  function Unpivot(wide: seq<WideRow>): set<PlotRow>
  {
    set i, p | 0 <= i < |wide| && p in wide[i].prices :: PlotRow(wide[i].time, wide[i].prices[p], p)
  }

  /** Every present cell of `wide` is a row of `rows`. */
  ghost predicate CellsFrom(wide: seq<WideRow>, rows: seq<PlotRow>) {
    forall i, p :: 0 <= i < |wide| && p in wide[i].prices ==> PlotRow(wide[i].time, wide[i].prices[p], p) in rows
  }

  /** Wide row `w` holds row `r`: same time, and `r`'s price in `r`'s platform column. */
  ghost predicate HasCell(w: WideRow, r: PlotRow) {
    w.time == r.time && r.platform in w.prices && w.prices[r.platform] == r.price
  }

  /** Every row of `rows` is a present cell of `wide`. */
  ghost predicate RowsIn(rows: seq<PlotRow>, wide: seq<WideRow>) {
    forall r :: r in rows ==> exists i :: 0 <= i < |wide| && HasCell(wide[i], r)
  }

  /** Grouping never yields an empty wide row, and the first wide row has the first row's time. */
  lemma {:induction false} GroupShape(sorted: seq<PlotRow>)
    ensures var wide := Group(sorted);
      && (sorted != [] ==> wide != [] && wide[0].time == sorted[0].time)
      && (forall i :: 0 <= i < |wide| ==> wide[i].prices != map[])
  {
    if sorted != [] {
      var r := sorted[0];
      GroupShape(sorted[1..]);
      var rest := Group(sorted[1..]);
      var wide := Group(sorted);
      assert r.platform in wide[0].prices;
      forall i | 0 < i < |wide| ensures wide[i].prices != map[] {
        if rest != [] && rest[0].time == r.time {
          assert wide[i] == rest[i];
        } else {
          assert wide[i] == rest[i - 1];
        }
      }
    }
  }

  /** Grouping a sorted table gives wide rows in strictly increasing time order. */
  lemma {:induction false} GroupOrdered(sorted: seq<PlotRow>)
    requires Sorting.SortedBy(sorted, PlotTime)
    ensures Sorting.StrictlySortedBy(Group(sorted), WideTime)
  {
    if sorted != [] {
      var r := sorted[0];
      var tail := sorted[1..];
      Sorting.SortedTail(sorted, PlotTime);
      GroupOrdered(tail);
      GroupShape(tail);
      var rest := Group(tail);
      if rest != [] {
        assert tail[0] in tail;
      }
      if rest != [] && rest[0].time == r.time {
        Sorting.StrictlySortedTail(rest, WideTime);
        Sorting.PrependStrictlySorted(WideRow(r.time, rest[0].prices[r.platform := r.price]), rest[1..], WideTime);
      } else {
        Sorting.PrependStrictlySorted(WideRow(r.time, map[r.platform := r.price]), rest, WideTime);
      }
    }
  }

  /** Every present cell of a grouped table is one of the grouped rows. */
  lemma {:induction false} GroupCells(sorted: seq<PlotRow>)
    ensures CellsFrom(Group(sorted), sorted)
  {
    if sorted != [] {
      var r := sorted[0];
      var tail := sorted[1..];
      assert sorted == [r] + tail;
      GroupCells(tail);
      var rest := Group(tail);
      var wide := Group(sorted);
      forall i, p | 0 <= i < |wide| && p in wide[i].prices
        ensures PlotRow(wide[i].time, wide[i].prices[p], p) in sorted
      {
        if rest != [] && rest[0].time == r.time {
          if i > 0 {
            assert wide[i] == rest[i];
          } else if p != r.platform {
            assert wide[0].prices[p] == rest[0].prices[p];
          }
        } else if i > 0 {
          assert wide[i] == rest[i - 1];
        }
      }
    }
  }

  /** Without duplicate entries, every row of the table is a present cell of the grouped table. */
  lemma {:induction false} GroupRows(sorted: seq<PlotRow>)
    requires NoDuplicateEntries(sorted)
    ensures RowsIn(sorted, Group(sorted))
  {
    if sorted != [] {
      var r := sorted[0];
      var tail := sorted[1..];
      assert sorted == [r] + tail;
      Sorting.DistinctTail(sorted, PlotEntry);
      GroupRows(tail);
      var rest := Group(tail);
      var wide := Group(sorted);
      assert HasCell(wide[0], r);
      forall x | x in tail ensures exists i :: 0 <= i < |wide| && HasCell(wide[i], x) {
        var k :| 0 <= k < |rest| && HasCell(rest[k], x);
        if rest[0].time == r.time {
          if k == 0 {
            assert HasCell(wide[0], x);
          } else {
            assert wide[k] == rest[k];
          }
        } else {
          assert wide[k + 1] == rest[k];
        }
      }
    }
  }

  /** Reordering a table cannot create or remove a duplicate (time, platform) entry. */
  lemma NoDuplicatesPermutation(a: seq<PlotRow>, b: seq<PlotRow>)
    requires multiset(a) == multiset(b)
    requires NoDuplicateEntries(a)
    ensures NoDuplicateEntries(b)
  {
    forall i, j | 0 <= i < j < |b| ensures PlotEntry(b[i]) != PlotEntry(b[j]) {
      var i', j' := DistinctPositions(a, b, i, j);
      if i' < j' {
        assert PlotEntry(a[i']) != PlotEntry(a[j']);
      } else {
        assert PlotEntry(a[j']) != PlotEntry(a[i']);
      }
    }
  }

  /** Two positions of `b` are matched by two distinct positions of a permutation `a` holding the same rows. */
  lemma DistinctPositions<T>(a: seq<T>, b: seq<T>, i: nat, j: nat) returns (i': nat, j': nat)
    requires multiset(a) == multiset(b)
    requires i < j < |b|
    ensures i' < |a| && j' < |a| && i' != j' && a[i'] == b[i] && a[j'] == b[j]
  {
    if b[i] == b[j] {
      CountedTwice(b, i, j);
      i', j' := TwoPositions(a, b[i]);
    } else {
      assert b[i] in multiset(b) && b[j] in multiset(b);
      assert b[i] in a && b[j] in a;
      var k :| 0 <= k < |a| && a[k] == b[i];
      var m :| 0 <= m < |a| && a[m] == b[j];
      i', j' := k, m;
    }
  }

  /** A row at two positions is counted at least twice. */
  lemma CountedTwice<T>(s: seq<T>, i: nat, j: nat)
    requires i < j < |s| && s[i] == s[j]
    ensures multiset(s)[s[i]] >= 2
  {
    assert s == s[..j] + [s[j]] + s[j + 1..];
    assert s[..j][i] == s[i];
    assert s[i] in multiset(s[..j]);
  }

  /** A row counted at least twice sits at two distinct positions. */
  lemma {:induction false} TwoPositions<T>(s: seq<T>, x: T) returns (i: nat, j: nat)
    requires multiset(s)[x] >= 2
    ensures i < j < |s| && s[i] == x && s[j] == x
  {
    assert s != [];
    assert s == [s[0]] + s[1..];
    if s[0] == x {
      assert x in multiset(s[1..]);
      var k :| 0 <= k < |s[1..]| && s[1..][k] == x;
      i, j := 0, k + 1;
    } else {
      var i', j' := TwoPositions(s[1..], x);
      i, j := i' + 1, j' + 1;
    }
  }

  /**
   * The pivot succeeds exactly when no (time, platform) pair repeats; it then gives one wide
   * row per time, in increasing time order, whose present cells are exactly the table's rows.
   */
  lemma PivotCorrect(rows: seq<PlotRow>)
    ensures PivotWide(rows).Some? <==> NoDuplicateEntries(rows)
    ensures PivotWide(rows).Some? ==> var wide := PivotWide(rows).value;
      && Sorting.StrictlySortedBy(wide, WideTime)
      && (forall i :: 0 <= i < |wide| ==> wide[i].prices != map[])
      && CellsFrom(wide, rows)
      && RowsIn(rows, wide)
  {
    if NoDuplicateEntries(rows) {
      var sorted := Sorting.SortBy(rows, PlotTime);
      Sorting.SortByMembers(rows, PlotTime);
      NoDuplicatesPermutation(rows, sorted);
      GroupOrdered(sorted);
      GroupShape(sorted);
      GroupCells(sorted);
      GroupRows(sorted);
      var wide := Group(sorted);
      assert CellsFrom(wide, rows) by {
        forall i, p | 0 <= i < |wide| && p in wide[i].prices
          ensures PlotRow(wide[i].time, wide[i].prices[p], p) in rows
        {
          assert PlotRow(wide[i].time, wide[i].prices[p], p) in sorted;
        }
      }
      assert RowsIn(rows, wide) by {
        forall r | r in rows ensures exists i :: 0 <= i < |wide| && HasCell(wide[i], r) {
          assert r in sorted;
        }
      }
    }
  }

  /** Pivoting a table without duplicate entries and melting it back gives the table's rows. */
  lemma PivotRoundTrip(rows: seq<PlotRow>)
    requires NoDuplicateEntries(rows)
    ensures PivotWide(rows).Some?
    ensures Unpivot(PivotWide(rows).value) == set r | r in rows
  {
    PivotCorrect(rows);
    var wide := PivotWide(rows).value;
    forall r | r in rows ensures r in Unpivot(wide) {
      var i :| 0 <= i < |wide| && HasCell(wide[i], r);
      assert r == PlotRow(wide[i].time, wide[i].prices[r.platform], r.platform);
    }
  }

  /** The wide table has a row for a time exactly when the long table has a row at that time. */
  lemma PivotOneRowPerTime(rows: seq<PlotRow>, t: int)
    requires NoDuplicateEntries(rows)
    ensures PivotWide(rows).Some?
    ensures (exists i :: 0 <= i < |PivotWide(rows).value| && PivotWide(rows).value[i].time == t) <==>
            (exists r :: r in rows && r.time == t)
  {
    PivotCorrect(rows);
    var wide := PivotWide(rows).value;
    if i :| 0 <= i < |wide| && wide[i].time == t {
      var p :| p in wide[i].prices;
      assert PlotRow(t, wide[i].prices[p], p) in rows;
    }
  }
}
