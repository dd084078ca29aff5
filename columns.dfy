/** Column resolution: which header positions `parseDataset` reads, and the
    country it stores for each (script/main.go, lines 99-109). */
module ColumnResolver {
  import opened Wrappers
  import opened Text

  const TimestampColumn: string := "utc_timestamp"
  const LoadActualColumn: string := "load_actual_entsoe_transparency"
  const LoadForecastColumn: string := "load_forecast_entsoe_transparency"

  /** The package-level `countries` and `columns` slices, in their order. */
  const Countries: seq<string> := ["DE", "AT", "HU", "NL", "BE", "LU"]
  const Columns: seq<string> := [TimestampColumn, LoadActualColumn, LoadForecastColumn]

  /** The condition of the innermost `if`. */
  predicate Matches(col: string, country: string, column: string) {
    col == TimestampColumn || HasPrefix(col, country + "_" + column)
  }

  /** The position in `countries` at which the innermost loop breaks, if it does. */
  function FirstMatch(col: string, countries: seq<string>, column: string): (r: Option<nat>)
    ensures r.Some? ==> r.value < |countries| && Matches(col, countries[r.value], column)
    ensures forall k :: 0 <= k < |countries| && (r.None? || k < r.value) ==> !Matches(col, countries[k], column)
  {
    if countries == [] then None
    else
      var r := FirstMatch(col, countries[..|countries| - 1], column);
      if r.Some? then r
      else if Matches(col, countries[|countries| - 1], column) then Some(|countries| - 1)
      else None
  }

  /** The last position in `columns` for which the innermost loop stores a
      country for col: a later metric overwrites an earlier one. */
  function LastMetric(col: string, countries: seq<string>, columns: seq<string>): (r: Option<nat>)
    ensures r.Some? ==> r.value < |columns| && FirstMatch(col, countries, columns[r.value]).Some?
    ensures forall m :: 0 <= m < |columns| && (r.None? || r.value < m) ==> FirstMatch(col, countries, columns[m]).None?
  {
    if columns == [] then None
    else if FirstMatch(col, countries, columns[|columns| - 1]).Some? then Some(|columns| - 1)
    else LastMetric(col, countries, columns[..|columns| - 1])
  }

  /** The country stored for a column named col once the loops over `columns`
      have run. */
  function Owner(col: string, countries: seq<string>, columns: seq<string>): (r: Option<string>)
    ensures r.None? <==>
      forall m, k :: 0 <= m < |columns| && 0 <= k < |countries| ==> !Matches(col, countries[k], columns[m])
  {
    match LastMetric(col, countries, columns)
    case None => None
    case Some(m) => Some(countries[FirstMatch(col, countries, columns[m]).value])
  }

  /** Every indexed position lies in the header, and the slice
      `header[j][len(country)+1:]` of the record loop is in range for every
      indexed position that is not a timestamp column. */
  predicate WellFormedIndex(header: seq<string>, indices: map<int, string>) {
    forall j :: j in indices ==>
      0 <= j < |header| && (header[j] == TimestampColumn || |indices[j]| < |header[j]|)
  }

  /** The `indices` map that lines 99-109 build. */
  function ResolvedIndex(header: seq<string>): (indices: map<int, string>)
    ensures WellFormedIndex(header, indices)
  {
    ResolvedIndexWellFormed(header);
    IndexOf(header)
  }

  function IndexOf(header: seq<string>): map<int, string>
  {
    map j | 0 <= j < |header| && Owner(header[j], Countries, Columns).Some? ::
      Owner(header[j], Countries, Columns).value
  }

  lemma ResolvedIndexWellFormed(header: seq<string>)
    ensures WellFormedIndex(header, IndexOf(header))
  {
    var indices := IndexOf(header);
    CountryCodesShort();
    forall j | j in indices
      ensures 0 <= j < |header| && (header[j] == TimestampColumn || |indices[j]| < |header[j]|)
    {
      var col := header[j];
      var m := LastMetric(col, Countries, Columns).value;
      var k := FirstMatch(col, Countries, Columns[m]).value;
      assert indices[j] == Countries[k];
    }
  }

  /** A position is indexed exactly when its name is `utc_timestamp` or starts
      with some "{country}_{column}". */
  lemma ResolvedIndexDomain(header: seq<string>, j: int)
    ensures j in ResolvedIndex(header) <==>
      0 <= j < |header| &&
      (header[j] == TimestampColumn ||
       exists k, m :: 0 <= k < |Countries| && 0 <= m < |Columns| && HasPrefix(header[j], Countries[k] + "_" + Columns[m]))
  {
    if 0 <= j < |header| {
      var col := header[j];
      if col == TimestampColumn {
        assert Matches(col, Countries[0], Columns[0]);
      } else if exists k, m :: 0 <= k < |Countries| && 0 <= m < |Columns| && HasPrefix(col, Countries[k] + "_" + Columns[m]) {
        var k, m :| 0 <= k < |Countries| && 0 <= m < |Columns| && HasPrefix(col, Countries[k] + "_" + Columns[m]);
        assert Matches(col, Countries[k], Columns[m]);
      }
    }
  }

  lemma CountryCodesShort()
    ensures forall k :: 0 <= k < |Countries| ==> |Countries[k]| == 2
  {
  }

  /** A column that matches a two-letter country's prefix starts with that country. */
  lemma MatchedColumnStartsWithCountry(col: string, country: string, column: string)
    requires |country| == 2 && HasPrefix(col, country + "_" + column)
    ensures col[..2] == country
  {
    assert col[..2] == (country + "_" + column)[..2];
  }

  /** The country stored for an indexed position is the first entry of
      `countries` whose prefix the column name carries, for any metric; so the
      `break` picks one country per position. */
  lemma ResolvedCountry(header: seq<string>, j: int, k: nat)
    requires 0 <= j < |header| && k < |Countries|
    requires exists m :: 0 <= m < |Columns| && Matches(header[j], Countries[k], Columns[m])
    requires forall k', m :: 0 <= k' < k && 0 <= m < |Columns| ==> !Matches(header[j], Countries[k'], Columns[m])
    ensures j in ResolvedIndex(header) && ResolvedIndex(header)[j] == Countries[k]
  {
    var col := header[j];
    var m :| 0 <= m < |Columns| && Matches(col, Countries[k], Columns[m]);
    OwnerCountry(col, m, k);
    ResolvedAt(header, j);
  }

  /** The index at j is the owner of the name at j. */
  lemma ResolvedAt(header: seq<string>, j: int)
    requires 0 <= j < |header|
    ensures j in ResolvedIndex(header) <==> Owner(header[j], Countries, Columns).Some?
    ensures j in ResolvedIndex(header) ==> ResolvedIndex(header)[j] == Owner(header[j], Countries, Columns).value
  {
    assert ResolvedIndex(header) == IndexOf(header);
  }

  lemma OwnerCountry(col: string, m: nat, k: nat)
    requires m < |Columns| && k < |Countries| && Matches(col, Countries[k], Columns[m])
    requires forall k', m' :: 0 <= k' < k && 0 <= m' < |Columns| ==> !Matches(col, Countries[k'], Columns[m'])
    ensures Owner(col, Countries, Columns) == Some(Countries[k])
  {
    var m' := LastMetric(col, Countries, Columns).value;
    var k' := FirstMatch(col, Countries, Columns[m']).value;
    assert Owner(col, Countries, Columns) == Some(Countries[k']);
    CountryCodesShort();
    if col == TimestampColumn {
      assert Matches(col, Countries[0], Columns[0]);
      assert k == 0;
      assert Matches(col, Countries[0], Columns[m']);
      assert k' == 0;
    } else {
      MatchedColumnStartsWithCountry(col, Countries[k], Columns[m]);
      MatchedColumnStartsWithCountry(col, Countries[k'], Columns[m']);
    }
  }

  /** Every country the index stores is on the `countries` whitelist. */
  lemma IndexValuesWhitelisted(header: seq<string>, j: int)
    ensures j in ResolvedIndex(header) ==> ResolvedIndex(header)[j] in Countries
  {
    if j !in ResolvedIndex(header) {
      return;
    }
    ResolvedAt(header, j);
    var col := header[j];
    var m := LastMetric(col, Countries, Columns).value;
    var k := FirstMatch(col, Countries, Columns[m]).value;
    assert ResolvedIndex(header)[j] == Countries[k];
  }

  /** The `utc_timestamp` column itself is indexed, under "DE". */
  lemma TimestampColumnIndexedAsDE(header: seq<string>, j: int)
    requires 0 <= j < |header| && header[j] == TimestampColumn
    ensures j in ResolvedIndex(header) && ResolvedIndex(header)[j] == "DE"
  {
    assert Matches(header[j], Countries[0], Columns[0]);
    ResolvedCountry(header, j, 0);
  }

  /** One more country scanned without a match. */
  lemma FirstMatchNoneExtend(col: string, countries: seq<string>, column: string, k: nat)
    requires k < |countries| && FirstMatch(col, countries[..k], column).None?
    requires !Matches(col, countries[k], column)
    ensures FirstMatch(col, countries[..k + 1], column).None?
  {
    assert countries[..k + 1][..k] == countries[..k];
  }

  /** The innermost loop breaks at the first match. */
  lemma FirstMatchFound(col: string, countries: seq<string>, column: string, k: nat)
    requires k < |countries| && FirstMatch(col, countries[..k], column).None?
    requires Matches(col, countries[k], column)
    ensures FirstMatch(col, countries, column) == Some(k)
  {
    var r := FirstMatch(col, countries, column);
    assert forall i :: 0 <= i < k ==> countries[..k][i] == countries[i];
  }

  /** Processing one more metric. */
  lemma OwnerExtend(col: string, columns: seq<string>, m: nat)
    requires m < |columns|
    ensures Owner(col, Countries, columns[..m + 1]) ==
      match FirstMatch(col, Countries, columns[m])
      case Some(k) => Some(Countries[k])
      case None => Owner(col, Countries, columns[..m])
  {
    assert columns[..m + 1][..m] == columns[..m];
  }

  /** Agreement of the map being built with the name's owner under the
      metrics processed so far. */
  ghost predicate AgreesAt(indices: map<int, string>, header: seq<string>, j: int, columns: seq<string>)
    requires 0 <= j < |header|
  {
    (j in indices <==> Owner(header[j], Countries, columns).Some?) &&
    (j in indices ==> indices[j] == Owner(header[j], Countries, columns).value)
  }

  /** The innermost loop of lines 102-107: scan `countries` for the first
      one whose condition holds for col and column, stopping at the `break`. */
  method FindCountry(col: string, column: string) returns (found: Option<nat>)
    ensures found == FirstMatch(col, Countries, column)
  {
    var k := 0;
    while k < |Countries|
      invariant 0 <= k <= |Countries|
      invariant FirstMatch(col, Countries[..k], column).None?
    {
      var country := Countries[k];
      if col == TimestampColumn || HasPrefix(col, country + "_" + column) {
        FirstMatchFound(col, Countries, column, k);
        return Some(k);
      }
      FirstMatchNoneExtend(col, Countries, column, k);
      k := k + 1;
    }
    assert Countries[..k] == Countries;
    return None;
  }

  /** Lines 99-109: the loop over `columns` and over the header positions,
      storing `indices[j] = country` where the innermost loop breaks. */
  method BuildIndex(header: seq<string>) returns (indices: map<int, string>)
    ensures indices == ResolvedIndex(header)
  {
    indices := map[];
    for m := 0 to |Columns|
      invariant forall j :: j in indices ==> 0 <= j < |header|
      invariant forall j :: 0 <= j < |header| ==> AgreesAt(indices, header, j, Columns[..m])
    {
      var column := Columns[m];
      ghost var done, upTo := Columns[..m], Columns[..m + 1];
      for j := 0 to |header|
        invariant forall i :: i in indices ==> 0 <= i < |header|
        invariant forall i :: 0 <= i < j ==> AgreesAt(indices, header, i, upTo)
        invariant forall i :: j <= i < |header| ==> AgreesAt(indices, header, i, done)
      {
        var col := header[j];
        OwnerExtend(col, Columns, m);
        ghost var before := indices;
        assert AgreesAt(before, header, j, done);
        var found := FindCountry(col, column);
        if found.Some? {
          indices := indices[j := Countries[found.value]];
        }
        assert AgreesAt(indices, header, j, upTo);
        forall i | 0 <= i < |header| && i != j
          ensures AgreesAt(indices, header, i, upTo) == AgreesAt(before, header, i, upTo)
          ensures AgreesAt(indices, header, i, done) == AgreesAt(before, header, i, done)
        {
          assert (i in indices) == (i in before);
          assert i in indices ==> indices[i] == before[i];
        }
      }
    }
    assert Columns[..|Columns|] == Columns;
    forall j | 0 <= j < |header|
      ensures j in indices <==> j in ResolvedIndex(header)
      ensures j in indices ==> indices[j] == ResolvedIndex(header)[j]
    {
      assert AgreesAt(indices, header, j, Columns[..|Columns|]);
      ResolvedAt(header, j);
    }
  }
}
