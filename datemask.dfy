/**
 * The date filter the dashboard applies to the query's output: keep the rows whose fill time
 * falls on a UTC calendar date from the start date to the end date, both included.
 */
module DateMask {
  import opened Rows

  /** Keeps, in order, the rows whose fill-time date lies in `startDate` .. `endDate`. */
  function Mask(data: seq<AlignedRow>, startDate: int, endDate: int): (r: seq<AlignedRow>)
    ensures |r| <= |data|
    ensures forall row :: row in r <==> row in data && startDate <= DateOf(row.fillTime) <= endDate
    ensures forall row :: multiset(r)[row] == if startDate <= DateOf(row.fillTime) <= endDate then multiset(data)[row] else 0
  {
    if data == [] then []
    else
      var row := data[0];
      var rest := Mask(data[1..], startDate, endDate);
      assert data == [row] + data[1..];
      if startDate <= DateOf(row.fillTime) <= endDate then [row] + rest else rest
  }

  /** A timestamp inside the query's window falls on a date inside the mask's range. */
  lemma DateOfWindowedTimestamp(t: int, startDate: int, endDate: int)
    requires Between(t, startDate, endDate)
    ensures startDate <= DateOf(t) <= endDate
  {
    var d, m := t / SecondsPerDay, t % SecondsPerDay;
    assert t == d * SecondsPerDay + m && 0 <= m < SecondsPerDay;
  }

  /** The mask keeps every row of a table whose fill times all lie in the query's window. */
  lemma {:induction false} MaskKeepsWindowedRows(data: seq<AlignedRow>, startDate: int, endDate: int)
    requires forall row :: row in data ==> Between(row.fillTime, startDate, endDate)
    ensures Mask(data, startDate, endDate) == data
  {
    if data != [] {
      assert data == [data[0]] + data[1..];
      DateOfWindowedTimestamp(data[0].fillTime, startDate, endDate);
      MaskKeepsWindowedRows(data[1..], startDate, endDate);
    }
  }
}
