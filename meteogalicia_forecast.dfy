/** The forecast side of the MeteoGalicia source: `_collect_forecasting` and
    `_prepare_forecasting_input` (src/beemeteo/sources/meteogalicia/__init__.py). */
module MeteoGaliciaForecast {
  import opened Wrappers
  import opened Text
  import opened Decimal
  import opened MeteoGaliciaDay

  /** One row of the forecast frame: the day table's `ts` renamed `timestamp`, its
      GHI, and the three columns assigned on lines 25-27. */
  datatype ForecastRow = ForecastRow(timestamp: int, ghi: Option<real>, latitude: real, longitude: real, forecastingTimestamp: int)

  /** Lines 24-27: the day rows renamed and given the location and the time of the
      forecast. */
  function Tag(rows: seq<SolarRow>, latitude: real, longitude: real, now: int): (r: seq<ForecastRow>)
    ensures |r| == |rows|
    ensures forall i :: 0 <= i < |rows| ==> r[i] == ForecastRow(rows[i].ts, rows[i].ghi, latitude, longitude, now)
  {
    seq(|rows|, i requires 0 <= i < |rows| => ForecastRow(rows[i].ts, rows[i].ghi, latitude, longitude, now))
  }

  /** Line 28, `query("timestamp >= now")`: the rows from `now` on, order kept. */
  function FromNow(rows: seq<ForecastRow>, now: int): (r: seq<ForecastRow>)
    ensures |r| <= |rows|
    ensures forall x :: x in r <==> x in rows && x.timestamp >= now
  {
    if rows == [] then []
    else
      var rest := FromNow(rows[1..], now);
      assert forall x :: x in rows <==> x == rows[0] || x in rows[1..];
      if rows[0].timestamp >= now then [rows[0]] + rest else rest
  }

  /** `_collect_forecasting`: the day table of `now` from the first grid that has
      one, cut to the rows at or after `now`. When no grid had rows the table has
      no `timestamp` column and the query raises. */
  function CollectForecasting(latitude: real, longitude: real, now: Instant, clock: int, fetch: Url -> Response): (r: Result<seq<ForecastRow>>)
    ensures r.Ok? ==> forall x :: x in r.value ==> x.timestamp >= now.ts && x.forecastingTimestamp == now.ts
  {
    var data := DayData(latitude, longitude, now, clock, fetch);
    if data == [] then Failure("UndefinedVariableError: name 'timestamp' is not defined")
    else Ok(FromNow(Tag(data, latitude, longitude, now.ts), now.ts))
  }

  /** The forecast raises exactly when no grid answered with rows. Otherwise every
      row is at or after `now`, carries `now` as its forecasting time and the
      requested location, and comes from the day table; and every row of the day
      table at or after `now` is there. */
  lemma CollectForecastingSpec(latitude: real, longitude: real, now: Instant, clock: int, fetch: Url -> Response)
    ensures var r := CollectForecasting(latitude, longitude, now, clock, fetch);
      var data := DayData(latitude, longitude, now, clock, fetch);
      (r.Failure? <==> forall j :: 0 <= j < |Resolutions| ==> !Usable(fetch(DayUrls(now, clock, latitude, longitude)[j]))) &&
      (r.Ok? ==> (forall x :: x in r.value ==>
        x.timestamp >= now.ts && x.forecastingTimestamp == now.ts &&
        x.latitude == latitude && x.longitude == longitude && SolarRow(x.timestamp, x.ghi) in data)) &&
      (r.Ok? ==> (forall y :: y in data && y.ts >= now.ts ==>
        ForecastRow(y.ts, y.ghi, latitude, longitude, now.ts) in r.value))
  {
    DayDataFirstNonEmpty(latitude, longitude, now, clock, fetch);
    var data := DayData(latitude, longitude, now, clock, fetch);
    var tagged := Tag(data, latitude, longitude, now.ts);
    forall x | x in tagged
      ensures x.forecastingTimestamp == now.ts && x.latitude == latitude && x.longitude == longitude
      ensures SolarRow(x.timestamp, x.ghi) in data
    {
      var i :| 0 <= i < |tagged| && tagged[i] == x;
      assert data[i] == SolarRow(x.timestamp, x.ghi);
    }
    forall y | y in data ensures ForecastRow(y.ts, y.ghi, latitude, longitude, now.ts) in tagged {
      var i :| 0 <= i < |data| && data[i] == y;
      assert tagged[i] == ForecastRow(y.ts, y.ghi, latitude, longitude, now.ts);
    }
  }

  /** What `_prepare_forecasting_input` returns: the location as '.1f' text, the
      window as UTC timestamps, and the column positions of the stored key. */
  datatype ForecastingInput = ForecastingInput(latitude: string, longitude: string, tsIni: int, tsEnd: int, keyMapping: map<string, nat>)

  /** Line 32: the position of each key column. */
  const KeyMapping: map<string, nat> := map["latitude" := 0, "longitude" := 1, "timestamp" := 2, "forecasting_timestamp" := 3]

  /** `_prepare_forecasting_input`. Converting a datetime to the location's zone
      keeps the instant, so the UTC timestamps are those of the arguments. */
  function PrepareForecastingInput(latitude: real, longitude: real, dateFrom: Instant, dateTo: Instant, zoneOffset: int): (p: ForecastingInput)
    ensures p.tsIni == dateFrom.ts && p.tsEnd == dateTo.ts
    ensures p.keyMapping == KeyMapping
  {
    var fromLocal := Instant(dateFrom.ts, zoneOffset);
    var toLocal := Instant(dateTo.ts, zoneOffset);
    ForecastingInput(FormatFixed1(latitude), FormatFixed1(longitude), fromLocal.ts, toLocal.ts, KeyMapping)
  }

  /** The location text reads back as the coordinate rounded to a tenth (so it is
      within 0.05 of it) and starts with '-' exactly for a negative coordinate; the
      window is the arguments' instants; the key mapping numbers the four key
      columns 0 to 3, one each. */
  lemma PrepareForecastingInputSpec(latitude: real, longitude: real, dateFrom: Instant, dateTo: Instant, zoneOffset: int)
    ensures var p := PrepareForecastingInput(latitude, longitude, dateFrom, dateTo, zoneOffset);
      ParseNumber(p.latitude) == Some(RoundTenths(latitude) as real / 10.0) &&
      ParseNumber(p.longitude) == Some(RoundTenths(longitude) as real / 10.0) &&
      (p.latitude[0] == '-' <==> latitude < 0.0) && (p.longitude[0] == '-' <==> longitude < 0.0) &&
      p.tsIni == dateFrom.ts && p.tsEnd == dateTo.ts &&
      p.keyMapping.Keys == {"latitude", "longitude", "timestamp", "forecasting_timestamp"} &&
      (forall k :: k in p.keyMapping ==> p.keyMapping[k] < 4) &&
      (forall k1, k2 :: k1 in p.keyMapping && k2 in p.keyMapping && p.keyMapping[k1] == p.keyMapping[k2] ==> k1 == k2)
  {
    FormatFixed1RoundTrip(latitude);
    FormatFixed1RoundTrip(longitude);
  }
}
