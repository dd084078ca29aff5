/** The date filter of `parseDataset` (script/main.go, lines 116-126): every
    body row's first cell is parsed as an RFC 3339 timestamp, a row is kept
    when that instant is strictly after 2017-12-31T23:59:00Z, and the first
    unparseable cell stops the run. */
module DateFilter {
  import opened Wrappers
  import opened Schema

  /** Every row has a first cell (encoding/csv never yields an empty record). */
  predicate HasFirstCells(rows: seq<Row>) {
    forall i :: 0 <= i < |rows| ==> |rows[i]| > 0
  }

  predicate AllParse(rows: seq<Row>, parseTime: string -> Option<Instant>)
    requires HasFirstCells(rows)
  {
    forall i :: 0 <= i < |rows| ==> parseTime(rows[i][0]).Some?
  }

  /** The outcome of the filter loop over rows. */
  function Filter(rows: seq<Row>, parseTime: string -> Option<Instant>): (r: Result<seq<Row>, Failure>)
    requires HasFirstCells(rows)
    ensures r.Ok? <==> AllParse(rows, parseTime)
    ensures r.Err? ==>
      (exists i :: 0 <= i < |rows| && parseTime(rows[i][0]).None? &&
         r.error == BadTimestamp(rows[i][0]) && AllParse(rows[..i], parseTime))
    ensures r.Ok? ==> forall t :: 0 <= t < |r.value| ==> r.value[t] in rows
    decreases |rows|
  {
    if rows == [] then Ok([])
    else
      var init, row := rows[..|rows| - 1], rows[|rows| - 1];
      assert forall i :: 0 <= i < |init| ==> init[i] == rows[i];
      match Filter(init, parseTime)
      case Err(e) =>
        assert forall i :: 0 <= i < |init| ==> init[..i] == rows[..i];
        Err(e)
      case Ok(kept) =>
        match parseTime(row[0])
        case None =>
          assert init == rows[..|rows| - 1];
          Err(BadTimestamp(row[0]))
        case Some(t) => Ok(if t > Cutoff then kept + [row] else kept)
  }

  /** Once a prefix of the rows fails, the whole filter fails the same way. */
  lemma {:induction false} FilterErrorPersists(rows: seq<Row>, parseTime: string -> Option<Instant>, n: nat)
    requires HasFirstCells(rows) && n <= |rows|
    requires Filter(rows[..n], parseTime).Err?
    ensures Filter(rows, parseTime) == Filter(rows[..n], parseTime)
    decreases |rows| - n
  {
    if n < |rows| {
      assert rows[..n + 1][..n] == rows[..n];
      FilterErrorPersists(rows, parseTime, n + 1);
    } else {
      assert rows[..n] == rows;
    }
  }

  /** The positions of the rows strictly after the cutoff, in increasing order. */
  function Survivors(rows: seq<Row>, parseTime: string -> Option<Instant>): (idx: seq<nat>)
    requires HasFirstCells(rows) && AllParse(rows, parseTime)
    ensures forall t :: 0 <= t < |idx| ==> idx[t] < |rows|
    ensures forall s, t :: 0 <= s < t < |idx| ==> idx[s] < idx[t]
    ensures forall i :: 0 <= i < |rows| ==> (i in idx <==> parseTime(rows[i][0]).value > Cutoff)
    decreases |rows|
  {
    if rows == [] then []
    else
      var init := rows[..|rows| - 1];
      assert forall i :: 0 <= i < |init| ==> init[i] == rows[i];
      var before := Survivors(init, parseTime);
      if parseTime(rows[|rows| - 1][0]).value > Cutoff then before + [|rows| - 1] else before
  }

  /** The kept rows are exactly the rows at the surviving positions, in order:
      a row at the cutoff instant itself is dropped, a row one nanosecond
      later is kept, and nothing is reordered or repeated. */
  lemma {:induction false} FilterKeepsSurvivors(rows: seq<Row>, parseTime: string -> Option<Instant>)
    requires HasFirstCells(rows) && Filter(rows, parseTime).Ok?
    ensures var kept, idx := Filter(rows, parseTime).value, Survivors(rows, parseTime);
      |kept| == |idx| && forall t :: 0 <= t < |kept| ==> kept[t] == rows[idx[t]]
    decreases |rows|
  {
    if rows != [] {
      var init := rows[..|rows| - 1];
      assert forall i :: 0 <= i < |init| ==> init[i] == rows[i];
      assert HasFirstCells(init) && AllParse(init, parseTime);
      FilterKeepsSurvivors(init, parseTime);
      var kept0, idx0 := Filter(init, parseTime).value, Survivors(init, parseTime);
      var kept, idx := Filter(rows, parseTime).value, Survivors(rows, parseTime);
      if parseTime(rows[|rows| - 1][0]).value > Cutoff {
        assert kept == kept0 + [rows[|rows| - 1]];
        assert idx == idx0 + [|rows| - 1];
        forall t | 0 <= t < |kept|
          ensures kept[t] == rows[idx[t]]
        {
          if t < |kept0| {
            assert kept[t] == kept0[t] && idx[t] == idx0[t];
          }
        }
      } else {
        assert kept == kept0 && idx == idx0;
      }
    }
  }

  /** Lines 116-126. */
  method FilterRows(rows: seq<Row>, parseTime: string -> Option<Instant>) returns (res: Result<seq<Row>, Failure>)
    requires HasFirstCells(rows)
    ensures res == Filter(rows, parseTime)
  {
    var filtered: seq<Row> := [];
    for i := 0 to |rows|
      invariant Filter(rows[..i], parseTime) == Ok(filtered)
    {
      var row := rows[i];
      assert rows[..i + 1][..i] == rows[..i];
      var date := parseTime(row[0]);
      if date.None? {
        FilterErrorPersists(rows, parseTime, i + 1);
        return Err(BadTimestamp(row[0]));
      }
      if date.value > Cutoff {
        filtered := filtered + [row];
      }
    }
    assert rows[..|rows|] == rows;
    return Ok(filtered);
  }
}
