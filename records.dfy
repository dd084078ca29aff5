/** Record construction (script/main.go, lines 128-151 and 187-197): for
    every kept row one shared `record` is swept left to right over the
    columns, and the last column that writes a field decides its value. */
module Records {
  import opened Wrappers
  import opened Schema
  import opened ColumnResolver

  /** mustParseFloat: an empty cell is 0, anything else goes to the float
      parser, and a parse failure stops the run. */
  function MustParseFloat<F>(s: string, lib: Library<F>): (r: Result<F, Failure>)
    ensures s == "" ==> r == Ok(lib.zero)
    ensures s != "" ==> (r.Ok? <==> lib.parseFloat(s).Some?)
    ensures s != "" && r.Ok? ==> lib.parseFloat(s) == Some(r.value)
    ensures r.Err? ==> r.error == BadFloat(s)
  {
    if s == "" then Ok(lib.zero)
    else
      match lib.parseFloat(s)
      case None => Err(BadFloat(s))
      case Some(f) => Ok(f)
  }

  /** Every row has as many cells as the header (encoding/csv's default
      FieldsPerRecord check). */
  predicate Rectangular(header: seq<string>, rows: seq<Row>) {
    forall i :: 0 <= i < |rows| ==> |rows[i]| == |header|
  }

  /** The fields of `record`. */
  datatype Field = DateTimeField | CountryField | ActualField | ForecastField

  /** `header[j][len(country)+1:]`: the metric name after "{country}_". */
  function Metric(header: seq<string>, indices: map<int, string>, j: int): string
    requires WellFormedIndex(header, indices) && j in indices && header[j] != TimestampColumn
  {
    header[j][|indices[j]| + 1..]
  }

  /** Whether the column at j assigns the given field. The `utc_timestamp`
      branch comes first, so that column never sets the country. */
  predicate Writes(header: seq<string>, indices: map<int, string>, j: int, field: Field)
    requires WellFormedIndex(header, indices) && 0 <= j < |header|
  {
    match field
    case DateTimeField => header[j] == TimestampColumn
    case CountryField => header[j] != TimestampColumn && j in indices
    case ActualField =>
      header[j] != TimestampColumn && j in indices && Metric(header, indices, j) == LoadActualColumn
    case ForecastField =>
      header[j] != TimestampColumn && j in indices && Metric(header, indices, j) == LoadForecastColumn
  }

  /** The cell at j is readable: a timestamp cell parses, a load cell is
      empty or parses. */
  predicate CellReadable<F>(header: seq<string>, row: Row, indices: map<int, string>, lib: Library<F>, j: int)
    requires |row| == |header| && 0 <= j < |header| && WellFormedIndex(header, indices)
  {
    (Writes(header, indices, j, DateTimeField) ==> lib.parseTime(row[j]).Some?) &&
    (Writes(header, indices, j, ActualField) || Writes(header, indices, j, ForecastField) ==>
       MustParseFloat(row[j], lib).Ok?)
  }

  /** The failure an unreadable cell at j causes. */
  function CellFailure(header: seq<string>, row: Row, j: int): Failure
    requires |row| == |header| && 0 <= j < |header|
  {
    if header[j] == TimestampColumn then BadTimestamp(row[j]) else BadFloat(row[j])
  }

  /** One pass of the column loop, on the record built so far. */
  function Step<F>(rec: Record<F>, header: seq<string>, row: Row, j: nat,
                   indices: map<int, string>, lib: Library<F>): Result<Record<F>, Failure>
    requires |row| == |header| && j < |header| && WellFormedIndex(header, indices)
  {
    var value := row[j];
    if header[j] == TimestampColumn then
      match lib.parseTime(value)
      case None => Err(BadTimestamp(value))
      case Some(t) => Ok(rec.(dateTimeUTC := t))
    else if j in indices then
      var rec := rec.(countryCode := indices[j]);
      var column := Metric(header, indices, j);
      if column == LoadActualColumn then
        match MustParseFloat(value, lib)
        case Err(e) => Err(e)
        case Ok(f) => Ok(rec.(loadActual := f))
      else if column == LoadForecastColumn then
        match MustParseFloat(value, lib)
        case Err(e) => Err(e)
        case Ok(f) => Ok(rec.(loadForecast := f))
      else Ok(rec)
    else Ok(rec)
  }

  /** What one column does to the record: it fails exactly on an unreadable
      cell, and otherwise changes only the fields it writes. */
  lemma StepOutcome<F>(rec: Record<F>, header: seq<string>, row: Row, j: nat,
                       indices: map<int, string>, lib: Library<F>)
    requires |row| == |header| && j < |header| && WellFormedIndex(header, indices)
    ensures var r := Step(rec, header, row, j, indices, lib);
      && (r.Ok? <==> CellReadable(header, row, indices, lib, j))
      && (r.Err? ==> r.error == CellFailure(header, row, j))
      && (r.Ok? ==>
            r.value.dateTimeUTC ==
              if Writes(header, indices, j, DateTimeField) then lib.parseTime(row[j]).value else rec.dateTimeUTC)
      && (r.Ok? ==>
            r.value.countryCode ==
              if Writes(header, indices, j, CountryField) then indices[j] else rec.countryCode)
      && (r.Ok? ==>
            if Writes(header, indices, j, ActualField) then MustParseFloat(row[j], lib) == Ok(r.value.loadActual)
            else r.value.loadActual == rec.loadActual)
      && (r.Ok? ==>
            if Writes(header, indices, j, ForecastField) then MustParseFloat(row[j], lib) == Ok(r.value.loadForecast)
            else r.value.loadForecast == rec.loadForecast)
  {
  }

  /** The record after the column loop has visited positions 0 .. n-1. */
  function BuildPrefix<F>(header: seq<string>, row: Row, indices: map<int, string>, lib: Library<F>, n: nat)
    : Result<Record<F>, Failure>
    requires |row| == |header| && n <= |header| && WellFormedIndex(header, indices)
  {
    if n == 0 then Ok(EmptyRecord(lib.zero))
    else
      match BuildPrefix(header, row, indices, lib, n - 1)
      case Err(e) => Err(e)
      case Ok(rec) => Step(rec, header, row, n - 1, indices, lib)
  }

  /** The sweep succeeds exactly when every cell it visits is readable, and a
      failing sweep reports the first unreadable cell: a bad timestamp cell
      or a non-empty load cell that is not a number. */
  lemma {:induction false} BuildPrefixOutcome<F>(header: seq<string>, row: Row, indices: map<int, string>,
                                                lib: Library<F>, n: nat)
    requires |row| == |header| && n <= |header| && WellFormedIndex(header, indices)
    ensures var r := BuildPrefix(header, row, indices, lib, n);
      && (r.Ok? <==> forall j :: 0 <= j < n ==> CellReadable(header, row, indices, lib, j))
      && (r.Err? ==>
            exists j :: 0 <= j < n && !CellReadable(header, row, indices, lib, j) &&
              (forall i :: 0 <= i < j ==> CellReadable(header, row, indices, lib, i)) &&
              r.error == CellFailure(header, row, j))
  {
    if n > 0 {
      BuildPrefixOutcome(header, row, indices, lib, n - 1);
      var prev := BuildPrefix(header, row, indices, lib, n - 1);
      if prev.Ok? {
        StepOutcome(prev.value, header, row, n - 1, indices, lib);
      }
    }
  }

  /** The record a whole row yields. */
  function BuildRecord<F>(header: seq<string>, row: Row, indices: map<int, string>, lib: Library<F>)
    : Result<Record<F>, Failure>
    requires |row| == |header| && WellFormedIndex(header, indices)
  {
    BuildPrefix(header, row, indices, lib, |row|)
  }

  /** The last position before n whose column writes the field. */
  function LastWriter(header: seq<string>, indices: map<int, string>, n: nat, field: Field): (r: Option<nat>)
    requires n <= |header| && WellFormedIndex(header, indices)
    ensures r.Some? ==>
      r.value < n && Writes(header, indices, r.value, field) &&
      forall j :: r.value < j < n ==> !Writes(header, indices, j, field)
    ensures r.None? ==> forall j :: 0 <= j < n ==> !Writes(header, indices, j, field)
  {
    if n == 0 then None
    else if Writes(header, indices, n - 1, field) then Some(n - 1)
    else LastWriter(header, indices, n - 1, field)
  }

  /** Last write wins: each field of the built record is the value from the
      last column that writes it, or the zero value when no column does. The
      timestamp comes from the last `utc_timestamp` column, the country from
      the last indexed non-timestamp column, the loads from the last column
      whose metric is exactly the load's name. */
  lemma {:induction false} BuildFields<F>(header: seq<string>, row: Row, indices: map<int, string>,
                                          lib: Library<F>, n: nat)
    requires |row| == |header| && n <= |header| && WellFormedIndex(header, indices)
    requires BuildPrefix(header, row, indices, lib, n).Ok?
    ensures var r := BuildPrefix(header, row, indices, lib, n).value;
      && (match LastWriter(header, indices, n, DateTimeField)
          case None => r.dateTimeUTC == ZeroTime
          case Some(j) => lib.parseTime(row[j]) == Some(r.dateTimeUTC))
      && (match LastWriter(header, indices, n, CountryField)
          case None => r.countryCode == ""
          case Some(j) => r.countryCode == indices[j])
      && (match LastWriter(header, indices, n, ActualField)
          case None => r.loadActual == lib.zero
          case Some(j) => MustParseFloat(row[j], lib) == Ok(r.loadActual))
      && (match LastWriter(header, indices, n, ForecastField)
          case None => r.loadForecast == lib.zero
          case Some(j) => MustParseFloat(row[j], lib) == Ok(r.loadForecast))
  {
    if n > 0 {
      var prev := BuildPrefix(header, row, indices, lib, n - 1);
      BuildFields(header, row, indices, lib, n - 1);
      assert BuildPrefix(header, row, indices, lib, n) == Step(prev.value, header, row, n - 1, indices, lib);
      StepOutcome(prev.value, header, row, n - 1, indices, lib);
    }
  }

  /** The records of rows, one per row, in order. */
  function BuildAll<F>(header: seq<string>, rows: seq<Row>, indices: map<int, string>, lib: Library<F>)
    : (r: Result<seq<Record<F>>, Failure>)
    requires Rectangular(header, rows) && WellFormedIndex(header, indices)
    ensures r.Ok? <==> forall i :: 0 <= i < |rows| ==> BuildRecord(header, rows[i], indices, lib).Ok?
    ensures r.Ok? ==>
      |r.value| == |rows| &&
      forall i :: 0 <= i < |rows| ==> BuildRecord(header, rows[i], indices, lib) == Ok(r.value[i])
    decreases |rows|
  {
    if rows == [] then Ok([])
    else
      var init, row := rows[..|rows| - 1], rows[|rows| - 1];
      assert forall i :: 0 <= i < |init| ==> init[i] == rows[i];
      match BuildAll(header, init, indices, lib)
      case Err(e) => Err(e)
      case Ok(recs) =>
        match BuildRecord(header, row, indices, lib)
        case Err(e) => Err(e)
        case Ok(rec) => Ok(recs + [rec])
  }

  /** A failing build reports the failure of the first row that fails. */
  lemma {:induction false} BuildAllFirstFailure<F>(header: seq<string>, rows: seq<Row>, indices: map<int, string>,
                                                  lib: Library<F>)
    requires Rectangular(header, rows) && WellFormedIndex(header, indices)
    requires BuildAll(header, rows, indices, lib).Err?
    ensures exists i ::
      0 <= i < |rows| &&
      BuildRecord(header, rows[i], indices, lib) == Err(BuildAll(header, rows, indices, lib).error) &&
      forall i' :: 0 <= i' < i ==> BuildRecord(header, rows[i'], indices, lib).Ok?
    decreases |rows|
  {
    var init := rows[..|rows| - 1];
    assert forall i :: 0 <= i < |init| ==> init[i] == rows[i];
    var e := BuildAll(header, rows, indices, lib).error;
    if BuildAll(header, init, indices, lib).Err? {
      BuildAllFirstFailure(header, init, indices, lib);
      var i :| 0 <= i < |init| &&
        BuildRecord(header, init[i], indices, lib) == Err(BuildAll(header, init, indices, lib).error) &&
        forall i' :: 0 <= i' < i ==> BuildRecord(header, init[i'], indices, lib).Ok?;
      assert BuildRecord(header, rows[i], indices, lib) == Err(e);
    } else {
      assert BuildRecord(header, rows[|rows| - 1], indices, lib) == Err(e);
    }
  }

  lemma {:induction false} BuildPrefixErrorPersists<F>(header: seq<string>, row: Row, indices: map<int, string>,
                                                      lib: Library<F>, n: nat)
    requires |row| == |header| && n <= |header| && WellFormedIndex(header, indices)
    requires BuildPrefix(header, row, indices, lib, n).Err?
    ensures BuildRecord(header, row, indices, lib) == BuildPrefix(header, row, indices, lib, n)
    decreases |header| - n
  {
    if n < |header| {
      BuildPrefixErrorPersists(header, row, indices, lib, n + 1);
    }
  }

  lemma {:induction false} BuildAllErrorPersists<F>(header: seq<string>, rows: seq<Row>, indices: map<int, string>,
                                                   lib: Library<F>, n: nat)
    requires Rectangular(header, rows) && WellFormedIndex(header, indices) && n <= |rows|
    requires BuildAll(header, rows[..n], indices, lib).Err?
    ensures BuildAll(header, rows, indices, lib) == BuildAll(header, rows[..n], indices, lib)
    decreases |rows| - n
  {
    if n < |rows| {
      assert rows[..n + 1][..n] == rows[..n];
      BuildAllErrorPersists(header, rows, indices, lib, n + 1);
    } else {
      assert rows[..n] == rows;
    }
  }

  /** Lines 130-149: the column sweep over one row, writing into one
      shared record. */
  method BuildRow<F>(header: seq<string>, row: Row, indices: map<int, string>, lib: Library<F>)
    returns (res: Result<Record<F>, Failure>)
    requires |row| == |header| && WellFormedIndex(header, indices)
    ensures res == BuildRecord(header, row, indices, lib)
  {
    var record := EmptyRecord(lib.zero);
    for j := 0 to |row|
      invariant BuildPrefix(header, row, indices, lib, j) == Ok(record)
    {
      var value := row[j];
      if header[j] == TimestampColumn {
        var date := lib.parseTime(value);
        if date.None? {
          BuildPrefixErrorPersists(header, row, indices, lib, j + 1);
          return Err(BadTimestamp(value));
        }
        record := record.(dateTimeUTC := date.value);
        if record.dateTimeUTC < StartOf2018 {
          continue;
        }
      } else if j in indices {
        var country := indices[j];
        record := record.(countryCode := country);
        var column := header[j][|country| + 1..];
        if column == LoadActualColumn {
          var f := MustParseFloat(value, lib);
          if f.Err? {
            BuildPrefixErrorPersists(header, row, indices, lib, j + 1);
            return Err(f.error);
          }
          record := record.(loadActual := f.value);
        } else if column == LoadForecastColumn {
          var f := MustParseFloat(value, lib);
          if f.Err? {
            BuildPrefixErrorPersists(header, row, indices, lib, j + 1);
            return Err(f.error);
          }
          record := record.(loadForecast := f.value);
        }
      }
    }
    return Ok(record);
  }

  /** Lines 128-151: one record appended per row, in row order. */
  method BuildRecords<F>(header: seq<string>, rows: seq<Row>, indices: map<int, string>, lib: Library<F>)
    returns (res: Result<seq<Record<F>>, Failure>)
    requires Rectangular(header, rows) && WellFormedIndex(header, indices)
    ensures res == BuildAll(header, rows, indices, lib)
  {
    var records: seq<Record<F>> := [];
    for i := 0 to |rows|
      invariant BuildAll(header, rows[..i], indices, lib) == Ok(records)
    {
      var row := rows[i];
      assert rows[..i + 1][..i] == rows[..i] && rows[..i + 1][i] == row;
      var record := BuildRow(header, row, indices, lib);
      if record.Err? {
        BuildAllErrorPersists(header, rows, indices, lib, i + 1);
        return Err(record.error);
      }
      records := records + [record.value];
    }
    assert rows[..|rows|] == rows;
    return Ok(records);
  }
}
