# Mock power sensor: dataset reshaping and line-protocol encoding

Dafny model of the data path of `script/main.go`. The program downloads the
Open Power System Data 15-minute CSV, reshapes each body row stamped strictly
after 2017-12-31T23:59:00Z into one `record` (timestamp, country code,
actual load, forecast load) and publishes
each record as an InfluxDB line-protocol message over MQTT. The model covers
`parseDataset`, `mustParseFloat`, `convertToLineProtocol` and the
package-level `countries` / `columns` slices.

Modules, in data-flow order:

- `Wrappers`: `Option` and `Result`.
- `Text`: prefix tests, decimal digits and a character search. These stand
  for `strings.HasPrefix` and `%d`, and for the reader used in the round-trip
  lemma.
- `Schema`:
  - the cell and row types, with instants as integer nanoseconds since the
    Unix epoch;
  - the two cutoff instants and Go's zero `time.Time`;
  - the `record` datatype and its zero value;
  - `Library<F>`: the two library calls `parseDataset` makes, passed in as
    functions (`time.Parse(time.RFC3339, ·)` and `strconv.ParseFloat(·, 64)`),
    together with the float64 zero constant. `F` is the (opaque) float type.
    The third library call, `%f`, is the `formatFloat` parameter of
    `ConvertToLineProtocol`.
- `ColumnResolver` (lines 99-109): the `indices` map. `BuildIndex` is the
  triple loop, with `FindCountry` as its innermost loop and its `break`.
  `ResolvedIndex` is the map as a function of the header.
- `DateFilter` (lines 116-126): `FilterRows` is the filter loop and `Filter`
  its specification. `Survivors` lists the positions of the kept rows.
- `Records` (lines 128-151, 187-197):
  - `MustParseFloat`.
  - `BuildRow`, the column sweep that writes into one shared record.
  - `BuildRecords`, the row loop.
  - The specification functions `BuildRecord` and `BuildAll`, and the
    last-writer account of each field.
- `Dataset` (lines 92-154): `ParseDataset` composes the three stages. The
  lemmas about `Parsed` include three scenarios and the results they give.
- `LineProtocol` (lines 76-86): `ConvertToLineProtocol`, a reader for its
  output, and the round trip.

Every loop of `parseDataset` is a Dafny `method` whose loop invariant ties the
state so far to a prefix-recursive specification function. Each method's
`ensures` equates its result with that function. Lemmas about the function
then state what the source promises.

The `panic` in `mustParseFloat` becomes `Err(BadFloat(cell))`. The two
returns after `time.Parse` fails (lines 120 and 134) become
`Err(BadTimestamp(cell))`. Both abort the whole parse in the same way. The
two CSV read errors (lines 96 and 113) are not modelled.

Facts about the code that a reader of its doc comment (lines 88-91) might
not expect:

- The doc comment says records are parsed for data after
  2018-01-01 00:00:00 UTC. The filter's cutoff is in fact
  `2017-12-31T23:59:00Z`, exclusive (line 123). So a row in the last minute
  of 2017 is kept (`Dataset.LastMinuteOf2017Kept`).
- The `Before(2018-01-01)` test at lines 136-137 only `continue`s to the next
  column. It never drops a record, so every kept row yields exactly one
  record.
- The `utc_timestamp` column is itself put into `indices`, under `"DE"`
  (lines 103-104). The timestamp branch of the record loop comes first, so
  that entry never sets the country.
- No error is raised when the header has no `utc_timestamp` column, or when
  that column is not first. The filter always reads cell 0, and the record
  loop reads the column named `utc_timestamp`, wherever it is.
- There is one record per kept row, not one per country. Each field is
  written by the last column that writes it.
- A record's country is a whitelisted code or `""`; it is `""` exactly when
  its row has no indexed non-timestamp column (`Dataset.RowCountry`,
  `Dataset.ParsedCountries`).
- Every record is guaranteed to be stamped strictly after the cutoff when the
  header has the expected shape, with `utc_timestamp` at position 0 and nowhere else
  (`Dataset.ParsedTimesAfterCutoff`). The filter tests cell 0, but the
  record takes its time from the last `utc_timestamp` column.

## Model

| member | source | states |
|---|---|---|
| Text.HasPrefix | script/main.go:103 | `strings.HasPrefix`: the string is at least as long as the prefix and begins with it |
| Text.NatToDecimal | script/main.go:83 | the decimal digits of a natural number: non-empty, all digits, "0" exactly for zero, and no leading zero otherwise |
| Text.IntToDecimal | script/main.go:83 | `%d`: a minus sign for a negative integer, then the digits of its magnitude |
| Schema.EmptyRecord | script/main.go:130 | `record{}`: Go's zero time, the empty country and zero for both loads |
| ColumnResolver.Matches | script/main.go:103 | the condition of the innermost `if`: the name is `utc_timestamp` or starts with `{country}_{column}` |
| ColumnResolver.FirstMatch | script/main.go:102-107 | the country position at which the innermost loop breaks is the first whose condition holds; none below it, and none at all when there is no break |
| ColumnResolver.LastMetric | script/main.go:100-109 | the last metric for which a column gets a country stored, later metrics overwriting earlier ones |
| ColumnResolver.Owner | script/main.go:99-109 | a column name gets no country exactly when no (country, metric) pair satisfies the condition |
| ColumnResolver.ResolvedIndex | script/main.go:99-109 | every indexed position lies within the header, and the metric slice at line 142 is in range for every indexed non-timestamp position |
| ColumnResolver.ResolvedIndexDomain | script/main.go:99-109 | a position is indexed if and only if its name is `utc_timestamp` or starts with some `{country}_{column}` from the two whitelists |
| ColumnResolver.ResolvedCountry | script/main.go:102-105 | the stored country is the first entry of `countries` whose prefix (with any metric) the column name carries |
| ColumnResolver.IndexValuesWhitelisted | script/main.go:99-109 | every country the index stores is an entry of `countries` |
| ColumnResolver.TimestampColumnIndexedAsDE | script/main.go:103-104 | a `utc_timestamp` column is indexed, under `countries[0]` = "DE" |
| ColumnResolver.CountryCodesShort | script/main.go:21 | every whitelisted country code has two characters |
| ColumnResolver.FindCountry | script/main.go:102-107 | the loop with its `break` returns the position `FirstMatch` specifies |
| ColumnResolver.BuildIndex | script/main.go:99-109 | the map the triple loop builds is `ResolvedIndex(header)` |
| DateFilter.Filter | script/main.go:116-126 | the filter succeeds if and only if every first cell parses; a failure reports the first bad cell; every kept row is an input row |
| DateFilter.FilterErrorPersists | script/main.go:117-121 | once a prefix of the body fails, the whole filter fails with the same error |
| DateFilter.Survivors | script/main.go:123-125 | the kept positions are in range and strictly increasing, and a position is among them if and only if its instant is strictly after 2017-12-31T23:59:00Z |
| DateFilter.FilterKeepsSurvivors | script/main.go:116-126 | the kept rows are exactly the rows at the surviving positions, in input order |
| DateFilter.FilterRows | script/main.go:116-126 | the loop with its early return computes `Filter` |
| Records.MustParseFloat | script/main.go:187-196 | "" gives 0; another cell gives the parser's value when it parses and a `BadFloat` failure for that cell when it does not |
| Records.Metric | script/main.go:142 | `header[j][len(country)+1:]`: the column name after its stored country and the underscore |
| Records.Step | script/main.go:132-148 | one pass of the column loop: a `utc_timestamp` cell is parsed into the timestamp or fails; an indexed column sets the country and, if its metric is one of the two loads, stores `mustParseFloat` of the cell or fails; any other column leaves the record unchanged |
| Records.BuildPrefix | script/main.go:130-149 | the record after the sweep has visited the first n columns, starting from `record{}` and stopping at the first failure |
| Records.BuildRecord | script/main.go:130-149 | the outcome of sweeping every column of a row |
| Records.StepOutcome | script/main.go:131-148 | one column fails exactly on an unreadable cell, with that cell's failure; otherwise it changes exactly the fields its column writes, to the parsed cell or the stored country |
| Records.BuildPrefixOutcome | script/main.go:131-148 | a row builds if and only if every cell the sweep reads is readable; a failing row reports its first unreadable cell |
| Records.LastWriter | script/main.go:131-148 | the last column before a position that writes a given field, or none |
| Records.BuildFields | script/main.go:130-148 | last write wins: the timestamp is the parse of the last `utc_timestamp` cell, the country the one stored for the last indexed non-timestamp column, each load the parse of the last cell whose metric is exactly that load; each is the zero value when no column writes it |
| Records.BuildAll | script/main.go:128-151 | the row loop succeeds if and only if every row builds, and then yields one record per row, in order, each the record its row builds |
| Records.BuildAllFirstFailure | script/main.go:128-151 | a failing row loop reports the failure of the first row that fails |
| Records.BuildPrefixErrorPersists | script/main.go:133-135 | a failing column ends the sweep of its row with that failure |
| Records.BuildAllErrorPersists | script/main.go:128-151 | a failing row ends the row loop with that failure |
| Records.BuildRow | script/main.go:130-149 | the column sweep with its early returns and `continue` computes `BuildRecord` |
| Records.BuildRecords | script/main.go:128-151 | the row loop computes `BuildAll` |
| Dataset.Parsed | script/main.go:92-154 | the outcome of `parseDataset` on a tokenised table: the filter's error if it fails, otherwise the row loop over the kept rows with the resolved index |
| Dataset.ParseDataset | script/main.go:92-154 | the three stages compute `Parsed`; a success means every first cell parsed and gives one record per surviving row; any unparseable first cell makes the parse fail |
| Dataset.ParseFailsOnBadTimestamp | script/main.go:117-121 | an unparseable first cell in any body row makes the parse fail with the timestamp failure of the first unparseable first cell, which is that row's or an earlier one's, even for a row that would have been dropped |
| Dataset.ParsedRecords | script/main.go:116-151 | a successful parse returns exactly one record per row after the cutoff, in row order, each the record that row builds |
| Dataset.RowCountry | script/main.go:139-140 | the record a row builds carries a whitelisted country code or "", and "" exactly when no indexed non-timestamp column writes the country |
| Dataset.RowTime | script/main.go:132-133 | with `utc_timestamp` at position 0 and nowhere else, the record a row builds carries the instant its first cell parses to |
| Dataset.ParsedTimesAfterCutoff | script/main.go:116-151 | with that header shape, every record of a successful parse is stamped strictly after 2017-12-31T23:59:00Z |
| Dataset.ParsedCountries | script/main.go:128-151 | every record of a successful parse carries a whitelisted country code or "", so none contains a space |
| Dataset.NoSpaceInCountries | script/main.go:21 | neither "" nor any whitelisted country code contains a space |
| Dataset.ParsedSucceeds | script/main.go:116-151 | the parse succeeds if and only if every first cell parses and every surviving row builds |
| Dataset.OneRowKept | script/main.go:116-126 | a single row after the cutoff passes the filter unchanged |
| Dataset.OneRowBuilt | script/main.go:128-151 | a single row that builds gives a one-record result |
| Dataset.GermanRowExample | script/main.go:99-151 | the header `utc_timestamp, DE_load_actual_entsoe_transparency, DE_load_forecast_entsoe_transparency` and one row after the cutoff give one record for "DE" carrying the row's time and both loads |
| Dataset.GermanIndex | script/main.go:99-109 | in that header both load columns are indexed under "DE", with metrics the actual and the forecast load |
| Dataset.LastMinuteOf2017Kept | script/main.go:123-138 | a row one nanosecond after 2017-12-31T23:59:00Z is kept and yields a record, and the timestamp column leaves the country empty |
| Dataset.CutoffRowDropped | script/main.go:123-125 | a row at exactly 2017-12-31T23:59:00Z yields no record |
| LineProtocol.ConvertToLineProtocol | script/main.go:76-86 | the error result is never set |
| LineProtocol.LineRoundTrip | script/main.go:79-83 | reading a message back recovers the country, both formatted loads and the encoding time, when the separators `' '`, `','` and `' '` do not occur in the values they end |
| LineProtocol.LineIgnoresRecordTime | script/main.go:76-86 | the message does not depend on the record's timestamp |
| LineProtocol.LinesAtDistinctTimesDiffer | script/main.go:83 | messages for the same record encoded at different times differ |
| Text.DecimalRoundTrip | script/main.go:83 | the `%d` rendering of an integer reads back as that integer |
| Text.DecimalInjective | script/main.go:83 | distinct integers have distinct `%d` renderings |

## Left out

- `downloadDataset` (lines 156-172). It is an HTTP GET and a body read, which is network I/O.
- `getMQTTClient` and the publish loop in `main` (lines 55-73, 174-185), including `Publish`, `Wait` and the one-second sleep. These are MQTT transport and wall-clock pacing.
- `init` flag parsing and the progress `Println`/`Printf` calls (lines 36-39, 42-54, 71). These are command-line handling and logging.
- CSV tokenisation by `encoding/csv` (lines 93-97, 111-114) and its two read errors. The model starts from an already split header and body. It requires every row to be as long as the header, which is what the reader's default `FieldsPerRecord` check enforces: it stops with a read error otherwise.
- `time.Parse` with `time.RFC3339`, `strconv.ParseFloat` and `%f`. They are library calls on calendars and floating point, so they are parameters, and only the structure around them is proved. The model keeps the parsed instant in nanoseconds and drops the zone offset `time.Time` carries. The offset is never observed: only `After`, `Before` and the stored value are used, and the stored value is never printed.
- Go strings are byte sequences. `strings.HasPrefix`, `len(country)` and the slice `header[j][len(country)+1:]` (lines 103, 142) are modelled on sequences of characters. The two readings agree for valid UTF-8 input, because every country code and every prefix compared is ASCII. Other input is not modelled byte by byte.
- `time.Now().UnixNano()` (line 83). It is the wall clock, so it is the parameter `now`.
- `Dataset.ParseDataset`: its own `ensures` equates the result with `Parsed` and adds the success condition, the number of records and the failure on any bad first cell. The contents of the records are stated about `Parsed` by `Dataset.ParsedRecords` and `Records.BuildFields`.
- `LineProtocol.ConvertToLineProtocol`: the float values are compared only as formatted text, because `%f` is opaque. Whether parsing that text gives back the float is a property of `strconv`, which is not part of this model.
- `LineProtocol.LineRoundTrip`: the round trip needs a country code without spaces and formatted loads without the separator that ends them. `Dataset.ParsedCountries` proves the first condition for every record a parse returns. The other two are about `%f`, which is not part of this model; Go's `%f` never writes a space or a comma.
