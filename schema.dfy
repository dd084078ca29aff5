/** The values the dataset pipeline passes between its stages: table rows,
    the per-row `record`, the failures that abort a run, and the library
    routines the program calls but whose internals are not modelled. */
module Schema {
  import opened Wrappers

  /** One CSV record, already split into cells by encoding/csv. */
  type Row = seq<string>

  /** Instants are integers: nanoseconds since 1970-01-01T00:00:00Z. */
  type Instant = int

  /** 1970-01-01 + 1514764740 s = 2017-12-31T23:59:00Z, the filter's cutoff. */
  const Cutoff: Instant := 1514764740 * 1000000000

  /** 2018-01-01T00:00:00Z, the instant of the record loop's `Before` test. */
  const StartOf2018: Instant := 1514764800 * 1000000000

  /** The instant of Go's zero `time.Time` (0001-01-01T00:00:00Z), which a
      record keeps when no column sets its timestamp. */
  const ZeroTime: Instant := -62135596800 * 1000000000

  /** Why a run stops. `BadTimestamp` stands for the error returned after
      `time.Parse` fails; `BadFloat` stands for the panic in `mustParseFloat`. */
  datatype Failure = BadTimestamp(cell: string) | BadFloat(cell: string)

  /** The two library calls `parseDataset` makes, as total functions
      (`time.Parse(time.RFC3339, ·)` giving an instant and
      `strconv.ParseFloat(·, 64)`), together with the float64 zero constant.
      F is the float64 type, kept opaque. The encoder's `%f` is a parameter
      of `ConvertToLineProtocol` instead. */
  datatype Library<F> = Library(
    parseTime: string -> Option<Instant>,
    parseFloat: string -> Option<F>,
    zero: F)

  /** The Go `record` struct. */
  datatype Record<F> = Record(
    dateTimeUTC: Instant,
    countryCode: string,
    loadActual: F,
    loadForecast: F)

  /** `record{}`: every field at its zero value. */
  function EmptyRecord<F>(zero: F): Record<F>
  {
    Record(ZeroTime, "", zero, zero)
  }
}
