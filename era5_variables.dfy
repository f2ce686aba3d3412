/** The ERA5-Land variable table and the column and cell handling of `cleaning_pipe`
    (src/beemeteo/sources/era5/utils.py). */
module Era5Variables {
  import opened Wrappers
  import opened Decimal

  /** One ERA5-Land variable: the name the CDS API is asked for, the short name it
      uses in GRIB files, and the column name this program gives it. */
  datatype Variable = Variable(longName: string, shortName: string, name: string)

  predicate Distinct<T(==)>(s: seq<T>) {
    forall i, j :: 0 <= i < j < |s| ==> s[i] != s[j]
  }

  /** Lines 16-72: the variables downloaded, in request order. */
  function Era5LandVariables(): (vs: seq<Variable>)
    ensures |vs| == 11
  {
    [ Variable("10m_u_component_of_wind", "u10", "windSpeedEast"),
      Variable("10m_v_component_of_wind", "v10", "windSpeedNorth"),
      Variable("2m_dewpoint_temperature", "d2m", "dewAirTemperature"),
      Variable("2m_temperature", "t2m", "airTemperature"),
      Variable("leaf_area_index_high_vegetation", "lai_hv", "highVegetationRatio"),
      Variable("leaf_area_index_low_vegetation", "lai_lv", "lowVegetationRatio"),
      Variable("total_precipitation", "tp", "totalPrecipitation"),
      Variable("surface_solar_radiation_downwards", "ssrd", "GHI"),
      Variable("forecast_albedo", "fal", "albedo"),
      Variable("soil_temperature_level_4", "stl4", "soilTemperature"),
      Variable("volumetric_soil_water_layer_4", "swvl4", "soilWaterRatio") ]
  }

  function LongNames(vs: seq<Variable>): (r: seq<string>)
    ensures |r| == |vs| && forall i :: 0 <= i < |vs| ==> r[i] == vs[i].longName
  {
    seq(|vs|, i requires 0 <= i < |vs| => vs[i].longName)
  }

  function ShortNames(vs: seq<Variable>): (r: seq<string>)
    ensures |r| == |vs| && forall i :: 0 <= i < |vs| ==> r[i] == vs[i].shortName
  {
    seq(|vs|, i requires 0 <= i < |vs| => vs[i].shortName)
  }

  function Names(vs: seq<Variable>): (r: seq<string>)
    ensures |r| == |vs| && forall i :: 0 <= i < |vs| ==> r[i] == vs[i].name
  {
    seq(|vs|, i requires 0 <= i < |vs| => vs[i].name)
  }

  /** The 11 request names are pairwise distinct. */
  lemma LongNamesDistinct()
    ensures Distinct(LongNames(Era5LandVariables()))
  {
    assert LongNames(Era5LandVariables()) ==
      ["10m_u_component_of_wind", "10m_v_component_of_wind", "2m_dewpoint_temperature", "2m_temperature",
       "leaf_area_index_high_vegetation", "leaf_area_index_low_vegetation", "total_precipitation",
       "surface_solar_radiation_downwards", "forecast_albedo", "soil_temperature_level_4", "volumetric_soil_water_layer_4"];
  }

  /** The 11 GRIB short names are pairwise distinct. */
  lemma ShortNamesDistinct()
    ensures Distinct(ShortNames(Era5LandVariables()))
  {
    assert ShortNames(Era5LandVariables()) == ["u10", "v10", "d2m", "t2m", "lai_hv", "lai_lv", "tp", "ssrd", "fal", "stl4", "swvl4"];
  }

  /** The 11 column names are pairwise distinct. */
  lemma NamesDistinct()
    ensures Distinct(Names(Era5LandVariables()))
  {
    assert Names(Era5LandVariables()) ==
      ["windSpeedEast", "windSpeedNorth", "dewAirTemperature", "airTemperature", "highVegetationRatio",
       "lowVegetationRatio", "totalPrecipitation", "GHI", "albedo", "soilTemperature", "soilWaterRatio"];
  }

  /** Python's `dict(zip(keys, values))`: pairs up to the shorter list, a later key
      overriding an earlier one. */
  function ZipMap(keys: seq<string>, values: seq<string>): map<string, string>
  {
    if keys == [] || values == [] then map[]
    else ZipMap(keys[..|keys| - 1], values[..|values| - 1])[keys[|keys| - 1] := values[|values| - 1]]
  }

  ghost predicate Injective(m: map<string, string>) {
    forall a, b :: a in m && b in m && a != b ==> m[a] != m[b]
  }

  /** With distinct keys, the zipped dictionary has exactly those keys and maps the
      i-th key to the i-th value. */
  lemma {:induction false} ZipMapLookup(keys: seq<string>, values: seq<string>)
    requires |keys| == |values| && Distinct(keys)
    ensures forall k :: k in ZipMap(keys, values) <==> k in keys
    ensures forall i :: 0 <= i < |keys| ==> ZipMap(keys, values)[keys[i]] == values[i]
  {
    if keys != [] {
      var n := |keys| - 1;
      var prefix := ZipMap(keys[..n], values[..n]);
      ZipMapLookup(keys[..n], values[..n]);
      assert ZipMap(keys, values) == prefix[keys[n] := values[n]];
      assert keys == keys[..n] + [keys[n]];
      forall i | 0 <= i < n ensures ZipMap(keys, values)[keys[i]] == values[i] {
        assert keys[i] != keys[n] && keys[..n][i] == keys[i] && values[..n][i] == values[i];
      }
    }
  }

  /** With distinct values too, no two keys map to one value. */
  lemma ZipMapInjective(keys: seq<string>, values: seq<string>)
    requires |keys| == |values| && Distinct(keys) && Distinct(values)
    ensures Injective(ZipMap(keys, values))
  {
    ZipMapLookup(keys, values);
    var m := ZipMap(keys, values);
    forall a, b | a in m && b in m && a != b ensures m[a] != m[b] {
      var i :| 0 <= i < |keys| && keys[i] == a;
      var j :| 0 <= j < |keys| && keys[j] == b;
      assert i != j;
    }
  }

  /** The labels `cleaning_pipe` removes before renaming. */
  const DroppedColumns: set<string> := {"time", "step", "number", "surface"}

  /** The rename table of `cleaning_pipe`: `valid_time` becomes `time`, every short
      name its column name. */
  function RenameTable(): map<string, string>
  {
    ZipMap(RenameKeys(), RenameValues())
  }

  function RenameKeys(): seq<string> {
    ["valid_time"] + ShortNames(Era5LandVariables())
  }

  function RenameValues(): seq<string> {
    ["time"] + Names(Era5LandVariables())
  }

  lemma RenameListsDistinct()
    ensures |RenameKeys()| == |RenameValues()| == 12
    ensures Distinct(RenameKeys()) && Distinct(RenameValues())
  {
    var vs := Era5LandVariables();
    ShortNamesDistinct();
    NamesDistinct();
    forall i | 0 <= i < |vs| ensures vs[i].shortName != "valid_time" && vs[i].name != "time" { }
  }

  /** The rename sends `valid_time` to `time`, each short name to its column name,
      and never two labels to one name: the 12 source labels and the 12 target
      labels are each pairwise distinct. */
  lemma RenameTableInjective()
    ensures Injective(RenameTable())
    ensures "valid_time" in RenameTable() && RenameTable()["valid_time"] == "time"
    ensures forall v :: v in Era5LandVariables() ==> v.shortName in RenameTable() && RenameTable()[v.shortName] == v.name
  {
    RenameListsDistinct();
    ZipMapLookup(RenameKeys(), RenameValues());
    ZipMapInjective(RenameKeys(), RenameValues());
    RenameTableVariables(Era5LandVariables(), RenameTable());
  }

  lemma RenameTableVariables(vs: seq<Variable>, table: map<string, string>)
    requires forall i :: 0 <= i < |["valid_time"] + ShortNames(vs)| && i < |["time"] + Names(vs)| ==>
      (["valid_time"] + ShortNames(vs))[i] in table && table[(["valid_time"] + ShortNames(vs))[i]] == (["time"] + Names(vs))[i]
    ensures "valid_time" in table && table["valid_time"] == "time"
    ensures forall v :: v in vs ==> v.shortName in table && table[v.shortName] == v.name
  {
    var keys, values := ["valid_time"] + ShortNames(vs), ["time"] + Names(vs);
    assert keys[0] == "valid_time" && values[0] == "time";
    forall v | v in vs ensures v.shortName in table && table[v.shortName] == v.name {
      var i :| 0 <= i < |vs| && vs[i] == v;
      assert keys[i + 1] == v.shortName && values[i + 1] == v.name;
    }
  }

  /** pandas' `rename`: a label in the table is replaced, any other is kept. */
  function Rename(table: map<string, string>, c: string): string {
    if c in table then table[c] else c
  }

  /** The column labels after `drop(['time', 'step', 'number', 'surface'],
      errors='ignore')` followed by the rename. */
  function CleanColumns(columns: seq<string>): (r: seq<string>)
    ensures |r| <= |columns|
    ensures forall c :: c in r ==> exists d :: d in columns && d !in DroppedColumns && c == Rename(RenameTable(), d)
    ensures forall d :: d in columns && d !in DroppedColumns ==> Rename(RenameTable(), d) in r
  {
    if columns == [] then []
    else
      var rest := CleanColumns(columns[1..]);
      if columns[0] in DroppedColumns then rest else [Rename(RenameTable(), columns[0])] + rest
  }

  /** No two columns share a label after cleaning, when none did before and no kept
      label already uses one of the target names. */
  lemma {:induction false} CleanColumnsDistinct(columns: seq<string>)
    requires Distinct(columns)
    requires forall d :: d in columns && d !in DroppedColumns && d !in RenameTable() ==> d !in RenameTable().Values
    ensures Distinct(CleanColumns(columns))
  {
    if columns != [] {
      CleanColumnsDistinct(columns[1..]);
      var c := columns[0];
      if c !in DroppedColumns {
        RenameTableInjective();
        RenamedNotInRest(RenameTable(), c, columns[1..], CleanColumns(columns[1..]));
      }
    }
  }

  /** The renamed head of the columns is none of the renamed later columns. */
  lemma RenamedNotInRest(table: map<string, string>, c: string, tail: seq<string>, rest: seq<string>)
    requires Injective(table) && c !in tail
    requires c !in table ==> c !in table.Values
    requires forall d :: d in tail && d !in DroppedColumns && d !in table ==> d !in table.Values
    requires forall x :: x in rest ==> exists d :: d in tail && d !in DroppedColumns && x == Rename(table, d)
    ensures Rename(table, c) !in rest
  {
    if Rename(table, c) in rest {
      var d :| d in tail && d !in DroppedColumns && Rename(table, c) == Rename(table, d);
      RenamedDiffer(table, c, d);
    }
  }

  /** An injective rename keeps two labels apart, unless it maps one of them onto
      the other left alone. */
  lemma RenamedDiffer(table: map<string, string>, c: string, d: string)
    requires Injective(table) && c != d
    requires c !in table ==> c !in table.Values
    requires d !in table ==> d !in table.Values
    ensures Rename(table, c) != Rename(table, d)
  {
  }

  // ---------------------------------------------------------------------------
  // The grid-cell filter of `cleaning_pipe`

  /** `cleaning_pipe` as written: lines 144-145 run whenever either coordinate is
      given and round both, so a missing one makes `np.round(None, 1)` raise; the
      `elif` branches below them can never run. */
  function KeepsCellAsWritten(cellLat: real, cellLon: real, lat: Option<real>, lon: Option<real>): (r: Result<bool>)
    ensures r.Failure? <==> lat.Some? != lon.Some?
    ensures lat.None? && lon.None? ==> r == Ok(true)
  {
    if lat.Some? || lon.Some? then
      if lat.None? || lon.None? then Failure("TypeError: np.round of None")
      else Ok(RoundTenths(cellLat) == RoundTenths(lat.value) && RoundTenths(cellLon) == RoundTenths(lon.value))
    else
      Ok(true)
  }

  /** Giving only the latitude makes the as-written filter raise instead of
      selecting on the latitude, as the unreachable `elif` branch meant to. */
  lemma OnlyLatitudeRaises()
    ensures KeepsCellAsWritten(41.5, 2.0, Some(41.5), None).Failure?
  {
  }

  /** The filter the `elif` branches describe: keep the cells that lie on the
      requested latitude and longitude, each rounded to a tenth, ignoring a
      coordinate that is not given. */
  function KeepsCell(cellLat: real, cellLon: real, lat: Option<real>, lon: Option<real>): (keep: bool)
    ensures lat.Some? && keep ==> -0.1 <= cellLat - lat.value <= 0.1
    ensures lon.Some? && keep ==> -0.1 <= cellLon - lon.value <= 0.1
    ensures lat.None? && lon.None? ==> keep
  {
    var latOk := lat.None? || RoundTenths(cellLat) == RoundTenths(lat.value);
    var lonOk := lon.None? || RoundTenths(cellLon) == RoundTenths(lon.value);
    latOk && lonOk
  }

  /** Where the as-written filter does not raise, it agrees with the corrected one. */
  lemma KeepsCellAgrees(cellLat: real, cellLon: real, lat: Option<real>, lon: Option<real>)
    ensures KeepsCellAsWritten(cellLat, cellLon, lat, lon).Failure? <==> lat.Some? != lon.Some?
    ensures KeepsCellAsWritten(cellLat, cellLon, lat, lon).Ok? ==>
      KeepsCellAsWritten(cellLat, cellLon, lat, lon).value == KeepsCell(cellLat, cellLon, lat, lon)
  {
  }

  /** A grid cell of a decoded GRIB dataset, with its coordinates and the values of
      the dataset's variables (a missing one is `None`). */
  datatype Cell = Cell(latitude: real, longitude: real, values: seq<Option<real>>)

  predicate Complete(c: Cell) {
    forall i :: 0 <= i < |c.values| ==> c.values[i].Some?
  }

  /** The rows `cleaning_pipe` keeps: `dropna` removes a cell with any missing value,
      then the cell filter selects the requested grid point. */
  function CleanCells(cells: seq<Cell>, lat: Option<real>, lon: Option<real>): (r: seq<Cell>)
    ensures forall c :: c in r <==> c in cells && Complete(c) && KeepsCell(c.latitude, c.longitude, lat, lon)
    ensures |r| <= |cells|
  {
    if cells == [] then []
    else
      var rest := CleanCells(cells[1..], lat, lon);
      var c := cells[0];
      assert forall d :: d in cells <==> d == c || d in cells[1..];
      if Complete(c) && KeepsCell(c.latitude, c.longitude, lat, lon) then [c] + rest else rest
  }

  /** `cleaning_pipe`'s row selection as written: `np.round(None, 1)` at line 145
      raises whenever exactly one coordinate is given, whatever the rows; otherwise
      the rows kept are those of the cell filter. */
  function CleanCellsAsWritten(cells: seq<Cell>, lat: Option<real>, lon: Option<real>): (r: Result<seq<Cell>>)
    ensures r.Failure? <==> lat.Some? != lon.Some?
    ensures r.Ok? ==> forall c :: c in r.value <==>
      c in cells && Complete(c) && KeepsCellAsWritten(c.latitude, c.longitude, lat, lon) == Ok(true)
  {
    if lat.Some? != lon.Some? then Failure("TypeError: np.round of None")
    else
      var kept := CleanCells(cells, lat, lon);
      assert forall c :: c in cells ==>
        KeepsCellAsWritten(c.latitude, c.longitude, lat, lon) == Ok(KeepsCell(c.latitude, c.longitude, lat, lon));
      Ok(kept)
  }
}
