/** `convertToLineProtocol` (script/main.go, lines 76-86): one record as an
    InfluxDB line-protocol message, stamped with the encoding time rather than
    the record's own timestamp. */
module LineProtocol {
  import opened Wrappers
  import opened Text
  import opened Schema

  const Prefix: string := "sensor,country="
  const ActualKey: string := "load_actual="
  const ForecastKey: string := "load_forecast="

  /** The message for data. `now` stands for `time.Now().UnixNano()` and
      formatFloat for `%f`. The error result is never set. */
  function ConvertToLineProtocol<F>(data: Record<F>, now: Instant, formatFloat: F -> string)
    : (r: Result<string, Failure>)
    ensures r.Ok?
  {
    Ok("sensor," +
       "country=" + data.countryCode + " " +
       "load_actual=" + formatFloat(data.loadActual) + "," +
       "load_forecast=" + formatFloat(data.loadForecast) + " " +
       IntToDecimal(now))
  }

  /** The parts a message carries: the country tag, the two field values as
      text and the timestamp. */
  datatype LineFields = LineFields(country: string, loadActual: string, loadForecast: string, stamp: int)

  /** Reads `key`, then a value up to the first sep, and returns the value
      and what follows the separator. */
  function ReadField(s: string, key: string, sep: char): Option<(string, string)>
  {
    if !HasPrefix(s, key) then None
    else
      var rest := s[|key|..];
      match FindChar(rest, sep)
      case None => None
      case Some(i) => Some((rest[..i], rest[i + 1..]))
  }

  lemma ReadFieldOf(key: string, value: string, sep: char, rest: string)
    requires sep !in value
    ensures ReadField(key + value + [sep] + rest, key, sep) == Some((value, rest))
  {
    var s := key + (value + [sep] + rest);
    assert key + value + [sep] + rest == s;
    HasPrefixOfConcat(key, value + [sep] + rest);
    assert s[|key|..] == value + [sep] + rest;
    FindCharAfter(value, sep, rest);
    var tail := value + [sep] + rest;
    assert tail[..|value|] == value && tail[|value| + 1..] == rest;
  }

  /** Reads a message of the shape the encoder writes. */
  function ReadLine(line: string): Option<LineFields>
  {
    match ReadField(line, Prefix, ' ')
    case None => None
    case Some((country, rest)) =>
      match ReadField(rest, ActualKey, ',')
      case None => None
      case Some((actual, rest)) =>
        match ReadField(rest, ForecastKey, ' ')
        case None => None
        case Some((forecast, rest)) =>
          match ParseDecimal(rest)
          case None => None
          case Some(stamp) => Some(LineFields(country, actual, forecast, stamp))
  }

  /** Reading a message back recovers the country, both formatted loads and
      the encoding time, as long as the separators cannot occur inside the
      values they end. */
  lemma LineRoundTrip<F>(data: Record<F>, now: Instant, formatFloat: F -> string)
    requires ' ' !in data.countryCode
    requires ',' !in formatFloat(data.loadActual)
    requires ' ' !in formatFloat(data.loadForecast)
    ensures ReadLine(ConvertToLineProtocol(data, now, formatFloat).value) ==
      Some(LineFields(data.countryCode, formatFloat(data.loadActual), formatFloat(data.loadForecast), now))
  {
    var c, a, f, d := data.countryCode, formatFloat(data.loadActual), formatFloat(data.loadForecast), IntToDecimal(now);
    var line := ConvertToLineProtocol(data, now, formatFloat).value;
    var tail1 := ForecastKey + f + [' '] + d;
    var tail0 := ActualKey + a + [','] + tail1;
    assert "sensor," + "country=" == Prefix && " " == [' '] && "," == [','];
    assert line == Prefix + c + [' '] + tail0;
    ReadFieldOf(Prefix, c, ' ', tail0);
    ReadFieldOf(ActualKey, a, ',', tail1);
    ReadFieldOf(ForecastKey, f, ' ', d);
    DecimalRoundTrip(now);
  }

  /** The message ignores the record's own timestamp. */
  lemma LineIgnoresRecordTime<F>(data: Record<F>, t: Instant, now: Instant, formatFloat: F -> string)
    ensures ConvertToLineProtocol(data.(dateTimeUTC := t), now, formatFloat) ==
            ConvertToLineProtocol(data, now, formatFloat)
  {
  }

  /** Messages encoded at different times differ. */
  lemma LinesAtDistinctTimesDiffer<F>(data: Record<F>, now1: Instant, now2: Instant, formatFloat: F -> string)
    requires now1 != now2
    ensures ConvertToLineProtocol(data, now1, formatFloat) != ConvertToLineProtocol(data, now2, formatFloat)
  {
    var p := "sensor," + "country=" + data.countryCode + " " +
             "load_actual=" + formatFloat(data.loadActual) + "," +
             "load_forecast=" + formatFloat(data.loadForecast) + " ";
    var l1, l2 := ConvertToLineProtocol(data, now1, formatFloat).value, ConvertToLineProtocol(data, now2, formatFloat).value;
    assert l1 == p + IntToDecimal(now1) && l1[|p|..] == IntToDecimal(now1);
    assert l2 == p + IntToDecimal(now2) && l2[|p|..] == IntToDecimal(now2);
    if l1 == l2 {
      DecimalInjective(now1, now2);
    }
  }
}
