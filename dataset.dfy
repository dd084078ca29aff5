/** `parseDataset` (script/main.go, lines 92-154) on an already tokenised
    table: resolve the columns, filter the rows by date, build one record per
    kept row. */
module Dataset {
  import opened Wrappers
  import opened Schema
  import opened ColumnResolver
  import opened DateFilter
  import opened Records

  /** What parseDataset returns for a header and its body rows. */
  function Parsed<F>(header: seq<string>, rows: seq<Row>, lib: Library<F>): Result<seq<Record<F>>, Failure>
    requires |header| > 0 && Rectangular(header, rows)
  {
    assert HasFirstCells(rows);
    match Filter(rows, lib.parseTime)
    case Err(e) => Err(e)
    case Ok(kept) =>
      assert Rectangular(header, kept);
      BuildAll(header, kept, ResolvedIndex(header), lib)
  }

  /** parseDataset after the CSV reader has produced the header and the rows. */
  method ParseDataset<F>(header: seq<string>, rows: seq<Row>, lib: Library<F>)
    returns (res: Result<seq<Record<F>>, Failure>)
    requires |header| > 0 && Rectangular(header, rows)
    ensures res == Parsed(header, rows, lib)
    ensures res.Ok? ==> AllParse(rows, lib.parseTime) && |res.value| == |Survivors(rows, lib.parseTime)|
    ensures (exists i :: 0 <= i < |rows| && lib.parseTime(rows[i][0]).None?) ==> res.Err?
  {
    var indices := BuildIndex(header);
    var filtered := FilterRows(rows, lib.parseTime);
    if filtered.Err? {
      return Err(filtered.error);
    }
    assert Rectangular(header, filtered.value);
    res := BuildRecords(header, filtered.value, indices, lib);
    if res.Ok? {
      FilterKeepsSurvivors(rows, lib.parseTime);
    }
  }

  /** Any body row whose first cell is not an RFC 3339 timestamp makes the
      whole parse fail, with the first such cell, whether or not the row
      would have been kept. */
  lemma ParseFailsOnBadTimestamp<F>(header: seq<string>, rows: seq<Row>, lib: Library<F>, i: nat)
    requires |header| > 0 && Rectangular(header, rows)
    requires i < |rows| && lib.parseTime(rows[i][0]).None?
    ensures exists i' ::
      0 <= i' <= i && lib.parseTime(rows[i'][0]).None? &&
      Parsed(header, rows, lib) == Err(BadTimestamp(rows[i'][0])) &&
      AllParse(rows[..i'], lib.parseTime)
  {
    assert HasFirstCells(rows);
    var f := Filter(rows, lib.parseTime);
    assert f.Err?;
    var i' :| 0 <= i' < |rows| && lib.parseTime(rows[i'][0]).None? &&
      f.error == BadTimestamp(rows[i'][0]) && AllParse(rows[..i'], lib.parseTime);
  }

  /** On success the result holds exactly one record per row strictly after
      the cutoff, in row order, each the record that row builds. */
  lemma ParsedRecords<F>(header: seq<string>, rows: seq<Row>, lib: Library<F>)
    requires |header| > 0 && Rectangular(header, rows)
    requires Parsed(header, rows, lib).Ok?
    ensures AllParse(rows, lib.parseTime)
    ensures var recs, idx := Parsed(header, rows, lib).value, Survivors(rows, lib.parseTime);
      |recs| == |idx| &&
      forall t :: 0 <= t < |recs| ==> BuildRecord(header, rows[idx[t]], ResolvedIndex(header), lib) == Ok(recs[t])
  {
    assert HasFirstCells(rows);
    FilterKeepsSurvivors(rows, lib.parseTime);
  }

  /** The record a row builds carries a whitelisted country code, or ""
      when the row has no indexed non-timestamp column. */
  lemma RowCountry<F>(header: seq<string>, row: Row, lib: Library<F>)
    requires |row| == |header|
    requires BuildRecord(header, row, ResolvedIndex(header), lib).Ok?
    ensures var c := BuildRecord(header, row, ResolvedIndex(header), lib).value.countryCode;
      && (c == "" || c in Countries)
      && (c == "" <==> LastWriter(header, ResolvedIndex(header), |row|, CountryField).None?)
  {
    var indices := ResolvedIndex(header);
    CountryCodesShort();
    BuildFields(header, row, indices, lib, |row|);
    match LastWriter(header, indices, |row|, CountryField)
    case None =>
    case Some(j) =>
      IndexValuesWhitelisted(header, j);
      assert BuildRecord(header, row, indices, lib).value.countryCode == indices[j];
      assert |indices[j]| == 2;
  }

  /** When the header has its expected shape, a single `utc_timestamp`
      column at position 0, the record a row builds carries the instant of
      the row's first cell. */
  lemma RowTime<F>(header: seq<string>, row: Row, lib: Library<F>)
    requires |row| == |header| && |header| > 0 && header[0] == TimestampColumn
    requires forall j :: 0 < j < |header| ==> header[j] != TimestampColumn
    requires BuildRecord(header, row, ResolvedIndex(header), lib).Ok?
    ensures lib.parseTime(row[0]) == Some(BuildRecord(header, row, ResolvedIndex(header), lib).value.dateTimeUTC)
  {
    var indices := ResolvedIndex(header);
    BuildFields(header, row, indices, lib, |row|);
    assert Writes(header, indices, 0, DateTimeField);
  }

  /** With that header shape, every record of a successful parse is stamped
      strictly after 2017-12-31T23:59:00Z. */
  lemma ParsedTimesAfterCutoff<F>(header: seq<string>, rows: seq<Row>, lib: Library<F>)
    requires |header| > 0 && Rectangular(header, rows) && header[0] == TimestampColumn
    requires forall j :: 0 < j < |header| ==> header[j] != TimestampColumn
    requires Parsed(header, rows, lib).Ok?
    ensures forall t :: 0 <= t < |Parsed(header, rows, lib).value| ==>
      Parsed(header, rows, lib).value[t].dateTimeUTC > Cutoff
  {
    ParsedRecords(header, rows, lib);
    var recs, idx := Parsed(header, rows, lib).value, Survivors(rows, lib.parseTime);
    forall t | 0 <= t < |recs|
      ensures recs[t].dateTimeUTC > Cutoff
    {
      RowTime(header, rows[idx[t]], lib);
      assert idx[t] in idx;
    }
  }

  /** Every record of a successful parse carries a whitelisted country code,
      or ""; so no country code contains a space. */
  lemma ParsedCountries<F>(header: seq<string>, rows: seq<Row>, lib: Library<F>)
    requires |header| > 0 && Rectangular(header, rows)
    requires Parsed(header, rows, lib).Ok?
    ensures forall t :: 0 <= t < |Parsed(header, rows, lib).value| ==>
      var c := Parsed(header, rows, lib).value[t].countryCode;
      (c == "" || c in Countries) && ' ' !in c
  {
    ParsedRecords(header, rows, lib);
    CountryCodesShort();
    var recs, idx := Parsed(header, rows, lib).value, Survivors(rows, lib.parseTime);
    forall t | 0 <= t < |recs|
      ensures (recs[t].countryCode == "" || recs[t].countryCode in Countries) && ' ' !in recs[t].countryCode
    {
      RowCountry(header, rows[idx[t]], lib);
      NoSpaceInCountries(recs[t].countryCode);
    }
  }

  /** No whitelisted country code contains a space. */
  lemma NoSpaceInCountries(c: string)
    requires c == "" || c in Countries
    ensures ' ' !in c
  {
  }

  /** The parse succeeds exactly when every first cell is a timestamp and
      every kept row builds its record. */
  lemma ParsedSucceeds<F>(header: seq<string>, rows: seq<Row>, lib: Library<F>)
    requires |header| > 0 && Rectangular(header, rows)
    ensures Parsed(header, rows, lib).Ok? <==>
      AllParse(rows, lib.parseTime) &&
      var idx := Survivors(rows, lib.parseTime);
      forall t :: 0 <= t < |idx| ==> BuildRecord(header, rows[idx[t]], ResolvedIndex(header), lib).Ok?
  {
    assert HasFirstCells(rows);
    if AllParse(rows, lib.parseTime) {
      FilterKeepsSurvivors(rows, lib.parseTime);
    }
  }

  /** A one-row body after the cutoff passes the filter unchanged. */
  lemma OneRowKept(row: Row, parseTime: string -> Option<Instant>)
    requires |row| > 0 && parseTime(row[0]).Some? && parseTime(row[0]).value > Cutoff
    ensures Filter([row], parseTime) == Ok([row])
  {
    assert [row][..0] == [];
    assert [] + [row] == [row];
  }

  /** A one-row body yields what its row yields. */
  lemma OneRowBuilt<F>(header: seq<string>, row: Row, indices: map<int, string>, lib: Library<F>)
    requires |row| == |header| && WellFormedIndex(header, indices)
    requires BuildRecord(header, row, indices, lib).Ok?
    ensures BuildAll(header, [row], indices, lib) == Ok([BuildRecord(header, row, indices, lib).value])
  {
    assert [row][..0] == [];
    assert [] + [BuildRecord(header, row, indices, lib).value] == [BuildRecord(header, row, indices, lib).value];
  }

  /** The German example: a timestamp column and the two German load columns,
      one row after the cutoff, give one record for "DE" with both loads. */
  lemma GermanRowExample<F>(lib: Library<F>, stamp: string, actual: string, forecast: string)
    requires lib.parseTime(stamp).Some? && lib.parseTime(stamp).value > Cutoff
    requires actual != "" && lib.parseFloat(actual).Some?
    requires forecast != "" && lib.parseFloat(forecast).Some?
    ensures Parsed([TimestampColumn, "DE_" + LoadActualColumn, "DE_" + LoadForecastColumn],
                   [[stamp, actual, forecast]], lib)
         == Ok([Record(lib.parseTime(stamp).value, "DE", lib.parseFloat(actual).value, lib.parseFloat(forecast).value)])
  {
    var header := [TimestampColumn, "DE_" + LoadActualColumn, "DE_" + LoadForecastColumn];
    var row := [stamp, actual, forecast];
    var indices := ResolvedIndex(header);
    GermanIndex(header);
    var t, a, f := lib.parseTime(stamp).value, lib.parseFloat(actual).value, lib.parseFloat(forecast).value;
    assert BuildPrefix(header, row, indices, lib, 1) == Ok(Record(t, "", lib.zero, lib.zero));
    assert BuildPrefix(header, row, indices, lib, 2) == Ok(Record(t, "DE", a, lib.zero));
    assert BuildRecord(header, row, indices, lib) == Ok(Record(t, "DE", a, f));
    OneRowKept(row, lib.parseTime);
    OneRowBuilt(header, row, indices, lib);
  }

  lemma GermanIndex(header: seq<string>)
    requires header == [TimestampColumn, "DE_" + LoadActualColumn, "DE_" + LoadForecastColumn]
    ensures 1 in ResolvedIndex(header) && ResolvedIndex(header)[1] == "DE"
    ensures 2 in ResolvedIndex(header) && ResolvedIndex(header)[2] == "DE"
    ensures Metric(header, ResolvedIndex(header), 1) == LoadActualColumn
    ensures Metric(header, ResolvedIndex(header), 2) == LoadForecastColumn
  {
    assert Countries[0] + "_" == "DE_";
    GermanColumnMatches(header[1], Columns[1]);
    ResolvedCountry(header, 1, 0);
    GermanColumnMatches(header[2], Columns[2]);
    ResolvedCountry(header, 2, 0);
  }

  lemma GermanColumnMatches(col: string, column: string)
    requires col == "DE_" + column
    ensures Matches(col, Countries[0], column)
  {
    assert Countries[0] + "_" + column == col;
    Text.HasPrefixOfConcat(col, "");
    assert col + "" == col;
  }

  /** A row inside the last minute of 2017 passes the filter and the
      `Before(2018-01-01)` test drops nothing, so it still yields a record;
      the `utc_timestamp` column is indexed under "DE" yet never sets the
      country. */
  lemma LastMinuteOf2017Kept<F>(lib: Library<F>, stamp: string)
    requires lib.parseTime(stamp) == Some(Cutoff + 1)
    ensures Parsed(["utc_timestamp"], [[stamp]], lib) == Ok([Record(Cutoff + 1, "", lib.zero, lib.zero)])
  {
    var header, row := ["utc_timestamp"], [stamp];
    var indices := ResolvedIndex(header);
    TimestampColumnIndexedAsDE(header, 0);
    assert BuildPrefix(header, row, indices, lib, 0) == Ok(EmptyRecord(lib.zero));
    assert BuildRecord(header, row, indices, lib) == Ok(Record(Cutoff + 1, "", lib.zero, lib.zero));
    OneRowKept(row, lib.parseTime);
    OneRowBuilt(header, row, indices, lib);
  }

  /** A row stamped exactly 2017-12-31T23:59:00Z is not kept. */
  lemma CutoffRowDropped<F>(header: seq<string>, row: Row, lib: Library<F>)
    requires |header| > 0 && |row| == |header|
    requires lib.parseTime(row[0]) == Some(Cutoff)
    ensures Parsed(header, [row], lib) == Ok([])
  {
    assert [row][..0] == [];
    assert Filter([row], lib.parseTime) == Ok([]);
  }
}
