/** One day of MeteoGalicia solar radiation: the resolution fallback and the choice
    between the recent and the historical catalogue in `_get_historic_data_day`
    (src/beemeteo/sources/meteogalicia/__init__.py). The HTTP request and the CSV
    parsing are a function parameter from a catalogue address to a response; the
    wall clock is a parameter. */
module MeteoGaliciaDay {
  import opened Wrappers

  const SecondsPerDay: int := 86400
  const SecondsPerHour: int := 3600

  /** A timezone-aware datetime: seconds since the epoch and the UTC offset, in
      seconds, of its zone. */
  datatype Instant = Instant(ts: int, offset: int)

  /** The calendar date of `t` in its own zone, as days since 1970-01-01. */
  function LocalDate(t: Instant): (d: int)
    ensures d * SecondsPerDay <= t.ts + t.offset < (d + 1) * SecondsPerDay
  {
    (t.ts + t.offset) / SecondsPerDay
  }

  /** `timedelta.days` of `later - earlier`: whole days, rounded down. */
  function ElapsedDays(earlier: int, later: int): (days: int)
    ensures days * SecondsPerDay <= later - earlier < (days + 1) * SecondsPerDay
  {
    (later - earlier) / SecondsPerDay
  }

  /** A model grid: its spacing in km and the WRF domain number. */
  datatype Resolution = Resolution(km: nat, domain: nat)

  /** The grids in the order they are tried, finest first. */
  const Resolutions: seq<Resolution> :=
    [Resolution(4, 2), Resolution(12, 2), Resolution(12, 1), Resolution(36, 2), Resolution(36, 1)]

  /** The catalogue address of one day on one grid, without its spelling: the
      operational catalogue of the last days (`wrf_2d_<km>km`, with a run hour) or
      the historical archive, which only has the 00 run and is indexed by domain. */
  datatype Url =
    | Recent(km: nat, domain: nat, date: int, run: nat, longitude: real, latitude: real)
    | Historical(domain: nat, date: int, longitude: real, latitude: real)

  /** Lines 145-219: the recent catalogue when the day lies at most 14 whole days
      before the clock, the historical one otherwise. */
  function DayUrl(resolution: Resolution, day: Instant, clock: int, latitude: real, longitude: real, run: nat): (url: Url)
    ensures url.date == LocalDate(day) && url.domain == resolution.domain
    ensures url.latitude == latitude && url.longitude == longitude
  {
    if ElapsedDays(day.ts, clock) <= 14 then
      Recent(resolution.km, resolution.domain, LocalDate(day), run, longitude, latitude)
    else
      Historical(resolution.domain, LocalDate(day), longitude, latitude)
  }

  /** The recent catalogue is chosen exactly when the day starts less than 15 days
      (in seconds) before the clock; every address names the day's own date, the
      grid's domain and the requested point. */
  lemma DayUrlChoice(resolution: Resolution, day: Instant, clock: int, latitude: real, longitude: real, run: nat)
    ensures DayUrl(resolution, day, clock, latitude, longitude, run).Recent? <==> clock - day.ts < 15 * SecondsPerDay
    ensures DayUrl(resolution, day, clock, latitude, longitude, run).Recent? ==>
      DayUrl(resolution, day, clock, latitude, longitude, run).km == resolution.km &&
      DayUrl(resolution, day, clock, latitude, longitude, run).run == run
    ensures DayUrl(resolution, day, clock, latitude, longitude, run).domain == resolution.domain
    ensures DayUrl(resolution, day, clock, latitude, longitude, run).date == LocalDate(day)
  {
  }

  /** One row of the day table: the UTC timestamp and the GHI value. */
  datatype SolarRow = SolarRow(ts: int, ghi: Option<real>)

  /** What a request yields: it raised (network or parse error), or a table. */
  datatype Response = Failed | Table(rows: seq<SolarRow>)

  /** A response the loop returns: a table with at least one row. An empty table
      raises inside the `try` and the next grid is tried. */
  predicate Usable(r: Response) {
    r.Table? && |r.rows| > 0
  }

  /** The addresses for the day, one per grid, in the order they are tried. */
  function DayUrls(day: Instant, clock: int, latitude: real, longitude: real): (urls: seq<Url>)
    ensures |urls| == |Resolutions|
    ensures forall i :: 0 <= i < |urls| ==> urls[i] == DayUrl(Resolutions[i], day, clock, latitude, longitude, 0)
  {
    seq(|Resolutions|, i requires 0 <= i < |Resolutions| => DayUrl(Resolutions[i], day, clock, latitude, longitude, 0))
  }

  /** Index of the first address whose response is usable, or the number of
      addresses when there is none. */
  function FirstUsable(urls: seq<Url>, fetch: Url -> Response): (k: nat)
    ensures k <= |urls|
    ensures k < |urls| ==> Usable(fetch(urls[k]))
    ensures forall j :: 0 <= j < k ==> !Usable(fetch(urls[j]))
  {
    if urls == [] then 0
    else if Usable(fetch(urls[0])) then 0
    else 1 + FirstUsable(urls[1..], fetch)
  }

  /** The table `_get_historic_data_day` returns; `[]` stands for the
      column-less `pd.DataFrame({})` of line 241, since a returned table always has
      a row. */
  function DayData(latitude: real, longitude: real, day: Instant, clock: int, fetch: Url -> Response): (rows: seq<SolarRow>)
    ensures rows != [] ==> exists u :: u in DayUrls(day, clock, latitude, longitude) && fetch(u) == Table(rows)
  {
    var urls := DayUrls(day, clock, latitude, longitude);
    var k := FirstUsable(urls, fetch);
    if k < |urls| then assert urls[k] in urls; fetch(urls[k]).rows else []
  }

  /** First non-empty wins: the day data is the table of the first grid whose
      response has rows, no earlier grid had one, and the data is empty exactly
      when no grid had one. */
  lemma DayDataFirstNonEmpty(latitude: real, longitude: real, day: Instant, clock: int, fetch: Url -> Response)
    ensures var urls := DayUrls(day, clock, latitude, longitude);
      var rows := DayData(latitude, longitude, day, clock, fetch);
      (rows == [] <==> forall j :: 0 <= j < |urls| ==> !Usable(fetch(urls[j]))) &&
      (rows != [] ==> exists k :: 0 <= k < |urls| && fetch(urls[k]) == Table(rows) &&
                                 forall j :: 0 <= j < k ==> !Usable(fetch(urls[j])))
  {
    var urls := DayUrls(day, clock, latitude, longitude);
    var k := FirstUsable(urls, fetch);
    if k < |urls| {
      assert fetch(urls[k]) == Table(fetch(urls[k]).rows);
    }
  }

  /** `_get_historic_data_day`: tries the grids in order and returns the first
      table with rows; `tried` lists the addresses requested, which stop at the one
      that answered. */
  method GetHistoricDataDay(latitude: real, longitude: real, day: Instant, clock: int, fetch: Url -> Response)
    returns (data: seq<SolarRow>, tried: seq<Url>)
    ensures data == DayData(latitude, longitude, day, clock, fetch)
    ensures var urls := DayUrls(day, clock, latitude, longitude);
      |tried| <= |urls| && tried == urls[..|tried|] &&
      (data != [] ==> |tried| == FirstUsable(urls, fetch) + 1) &&
      (data == [] ==> |tried| == |urls|)
  {
    ghost var urls := DayUrls(day, clock, latitude, longitude);
    var run := 0;
    tried := [];
    for i := 0 to |Resolutions|
      invariant tried == urls[..i]
      invariant forall j :: 0 <= j < i ==> !Usable(fetch(urls[j]))
    {
      var resolution := Resolutions[i];
      var url := DayUrl(resolution, day, clock, latitude, longitude, run);
      tried := tried + [url];
      var response := fetch(url);
      if response.Table? && |response.rows| > 0 {
        FirstUsableAt(urls, fetch, i);
        return response.rows, tried;
      }
    }
    FirstUsableAt(urls, fetch, |urls|);
    return [], tried;
  }

  /** The first usable index is `k` when `k` is usable (or past the end) and none
      before it is. */
  lemma FirstUsableAt(urls: seq<Url>, fetch: Url -> Response, k: nat)
    requires k <= |urls| && (k < |urls| ==> Usable(fetch(urls[k])))
    requires forall j :: 0 <= j < k ==> !Usable(fetch(urls[j]))
    ensures FirstUsable(urls, fetch) == k
  {
  }
}
