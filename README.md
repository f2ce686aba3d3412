# beemeteo weather sources, modelled in Dafny

This project models two weather sources of beemeteo.

The **ERA5-Land source** (`src/beemeteo/sources/era5/utils.py`) covers:
- the table of the eleven ERA5-Land variables;
- the month-by-month download loop and the GRIB file name it writes;
- the column clean-up of `cleaning_pipe` (drop, rename, grid-cell filter);
- the de-accumulation and Kelvin-to-Celsius steps of `transformation_pipe`;
- the file filter and loading loop of `query_from_grib`;
- the `shift` helper.

The **MeteoGalicia source** (`src/beemeteo/sources/meteogalicia/__init__.py`) covers:
- the resolution fallback and catalogue choice for one day (`_get_historic_data_day`);
- the gap loop, the merge and the column order of `_get_historical_data_source`;
- the forecast of `_collect_forecasting`;
- the input preparation of `_prepare_forecasting_input`;
- the group-and-average step of `_collect_raster`.

External effects become parameters:
- The CDS client is replaced by the list of retrieval requests the loop would make.
- The file system is replaced by a set of existing file names or a directory listing.
- HTTP responses come from a function from a catalogue address to a response.
- The wall clock is an integer.
- Decoding one GRIB file is a function from a path to rows.

A timezone is a fixed UTC offset in seconds. A NaN cell is `None`.

Modules:
- `Wrappers`: `Option` and `Result`.
- `Text`: Python's `str` and `float` on digits, `split`, `join` and `sorted` on strings.
- `Decimal`: numpy's round-half-even to a tenth and `format(x, '.1f')`.
- `Era5Variables`, `Era5Download`, `Era5Query`, `Era5Transform`: the ERA5-Land source.
- `MeteoGaliciaDay`, `MeteoGaliciaHistory`, `MeteoGaliciaForecast`, `MeteoGaliciaRaster`: the MeteoGalicia source.

A period nobody could serve does not just yield fewer rows: `_get_historical_data_source` raises `KeyError: 'ts'` in two cases, and the model does the same:
- a gap whose every day came back as the column-less `pd.DataFrame({})`;
- an empty gap list.

In both cases `sort_values(by=["ts"])` runs on a frame without a `ts` column. Likewise, `_collect_forecasting` raises when no grid answered, because `query` names a missing column. Both are modelled as `Failure`.

## Model

| member | source | states |
|---|---|---|
| Era5Variables.Era5LandVariables | src/beemeteo/sources/era5/utils.py:16-72 | the table has eleven variables |
| Era5Variables.LongNamesDistinct | src/beemeteo/sources/era5/utils.py:16-72 | the eleven CDS long names are pairwise distinct |
| Era5Variables.ShortNamesDistinct | src/beemeteo/sources/era5/utils.py:16-72 | the eleven GRIB short names are pairwise distinct |
| Era5Variables.NamesDistinct | src/beemeteo/sources/era5/utils.py:16-72 | the eleven column names are pairwise distinct |
| Era5Variables.ZipMapLookup | src/beemeteo/sources/era5/utils.py:151-152 | `dict(zip(keys, values))` with distinct keys has exactly those keys and maps the i-th key to the i-th value |
| Era5Variables.ZipMapInjective | src/beemeteo/sources/era5/utils.py:151-152 | with distinct values as well, no two keys share a value |
| Era5Variables.RenameListsDistinct | src/beemeteo/sources/era5/utils.py:151-152 | the twelve source labels and the twelve target labels of the rename are each distinct |
| Era5Variables.RenameTableInjective | src/beemeteo/sources/era5/utils.py:151-152 | the rename sends `valid_time` to `time` and each short name to its column name, and never two labels to one |
| Era5Variables.CleanColumns | src/beemeteo/sources/era5/utils.py:150-152 | every label after the drop and rename is the rename of a label not dropped, and every such label's rename is present |
| Era5Variables.CleanColumnsDistinct | src/beemeteo/sources/era5/utils.py:150-152 | distinct input labels stay distinct after cleaning, unless a kept label already uses a target name |
| Era5Variables.KeepsCellAsWritten | src/beemeteo/sources/era5/utils.py:144-149 | the filter as written raises exactly when one coordinate is given without the other, and keeps every cell when none is given |
| Era5Variables.OnlyLatitudeRaises | src/beemeteo/sources/era5/utils.py:144-149 | the filter as written raises when only the latitude is given |
| Era5Variables.KeepsCellAgrees | src/beemeteo/sources/era5/utils.py:144-149 | the filter as written raises exactly when one coordinate is missing; otherwise it agrees with the corrected filter |
| Era5Variables.KeepsCell | src/beemeteo/sources/era5/utils.py:144-149 | a kept cell lies within a tenth of each given coordinate; with no coordinate, every cell is kept |
| Era5Variables.CleanCells | src/beemeteo/sources/era5/utils.py:142-149 | the corrected pipeline of the Findings row: a cell survives exactly when it has no missing value and passes the corrected cell filter |
| Era5Variables.CleanCellsAsWritten | src/beemeteo/sources/era5/utils.py:142-149 | the row selection as written raises exactly when one coordinate is given without the other; otherwise a cell survives exactly when it has no missing value and the as-written filter keeps it |
| Era5Download.CoordStringRoundTrip | src/beemeteo/sources/era5/utils.py:91 | for an int or a float with any number of decimals, `float(str(c))` gives the coordinate back, and `str(c)` holds no underscore |
| Text.DecimalTextRoundTrip | src/beemeteo/sources/era5/utils.py:91 | `float` reads a decimal text with any number of fraction digits back as the number it was printed from |
| Era5Download.ArgMin | src/beemeteo/sources/era5/utils.py:86 | `min` picks the first smallest element |
| Era5Download.ArgMax | src/beemeteo/sources/era5/utils.py:88 | `max` picks the first largest element |
| Era5Download.BoxOf | src/beemeteo/sources/era5/utils.py:91 | each corner is one of the requested values, and the corners bound every requested latitude and longitude |
| Era5Download.GribName | src/beemeteo/sources/era5/utils.py:91 | the file name ends in `.grib` |
| Era5Download.GribStemSplits | src/beemeteo/sources/era5/utils.py:91 | splitting the file stem on `_` gives back the five fields it was built from |
| Era5Download.YearMonthFieldValue | src/beemeteo/sources/era5/utils.py:89-91 | the first field is all digits and reads back as `year * 100 + month` |
| Era5Download.GribPathInjective | src/beemeteo/sources/era5/utils.py:91 | two months of one box share a file name only when they are the same year-month |
| Era5Download.NextMonth | src/beemeteo/sources/era5/utils.py:132-136 | the step gives a later year-month with a month from 1 to 12; December rolls over to January of the next year |
| Era5Download.MonthsFrom | src/beemeteo/sources/era5/utils.py:86-136 | the loop visits nothing exactly when the first year-month is past the last, and otherwise starts at the first |
| Era5Download.MonthsFromAscending | src/beemeteo/sources/era5/utils.py:86-88 | the visited year-months rise strictly and stay between the first and the last |
| Era5Download.MonthsFromValid | src/beemeteo/sources/era5/utils.py:86-136 | the loop starts at the first year-month, and every later visit has a month from 1 to 12 |
| Era5Download.MonthsFromComplete | src/beemeteo/sources/era5/utils.py:86-136 | every calendar year-month between the first and the last is visited |
| Era5Download.FirstMonth | src/beemeteo/sources/era5/utils.py:86 | the loop starts at the smallest requested year-month |
| Era5Download.LastMonth | src/beemeteo/sources/era5/utils.py:88 | the loop stops after the largest requested year-month |
| Era5Download.Retrievals | src/beemeteo/sources/era5/utils.py:94-130 | no request targets an existing file; every request is some visited month's; every visited month whose file is absent is requested |
| Era5Download.ExistingFileNotRetrieved | src/beemeteo/sources/era5/utils.py:94 | a month whose file exists triggers no retrieval |
| Era5Download.NotYetRequested | src/beemeteo/sources/era5/utils.py:91-94 | no earlier month's request writes the current month's file |
| Era5Download.LoopStep | src/beemeteo/sources/era5/utils.py:88-136 | one turn requests the month's file exactly when it is not on disk, and keeps requests and files in step with the months visited |
| Era5Download.DownloadMonths | src/beemeteo/sources/era5/utils.py:86-136 | the loop visits the months from the smallest to the largest, requests exactly the missing files, and ends with the existing files plus those requested |
| Era5Query.Root | src/beemeteo/sources/era5/utils.py:177-180 | `os.path.splitext(fn)[0]` on a `.grib` name is the whole name exactly when only dots precede `.grib`, and the name without `.grib` otherwise |
| Era5Query.FieldValue | src/beemeteo/sources/era5/utils.py:177-180 | the field reads as a number exactly when it exists and parses; otherwise IndexError or ValueError |
| Era5Query.Selects | src/beemeteo/sources/era5/utils.py:175-182 | an entry not ending in `.grib` is never kept, and a kept entry contains the requested text |
| Era5Query.SelectNames | src/beemeteo/sources/era5/utils.py:175-182 | the comprehension raises exactly when its condition raises for some entry; otherwise it keeps exactly the entries whose condition holds |
| Era5Query.SelectGribFiles | src/beemeteo/sources/era5/utils.py:175-182 | the listed paths are sorted and are exactly the directory plus each selected entry; the listing raises exactly when the condition raises |
| Era5Query.GribNameRoot | src/beemeteo/sources/era5/utils.py:91 | a file the downloader wrote ends in `.grib`, and its root is the stem it was named from |
| Era5Query.GribNameSelected | src/beemeteo/sources/era5/utils.py:175-182 | a downloaded file is selected exactly when the point lies in its box and its name contains the requested text; its name never makes the filter raise |
| Era5Query.ConcatLoads | src/beemeteo/sources/era5/utils.py:187-204 | the loading raises exactly when some file's decoding, cleaning or transformation raises |
| Era5Query.ConcatLoadsRows | src/beemeteo/sources/era5/utils.py:187-204 | when no file raises, a row is in the concatenation exactly when some selected file yields it |
| Era5Query.OneCoordinateLoadRaises | src/beemeteo/sources/era5/utils.py:142-149 | with the cleaning as written, giving one coordinate without the other makes the loading raise as soon as a file is selected |
| Era5Query.QueryFromGrib | src/beemeteo/sources/era5/utils.py:174-206 | raises exactly when the selection raises or some selected file fails to load; gives `None` for no file, otherwise the files' rows concatenated in sorted path order |
| Era5Transform.Shifted | src/beemeteo/sources/era5/utils.py:210-221 | the first (num > 0) or last (num < 0) `|num|` slots hold the fill value and the others hold `arr` moved by `num` |
| Era5Transform.Shift | src/beemeteo/sources/era5/utils.py:210-221 | the new array has the length of `arr` and the shifted contents |
| Era5Transform.ShiftBackRestores | src/beemeteo/sources/era5/utils.py:210-221 | shifting back by `-num` restores every element not pushed off the end |
| Era5Transform.Difference | src/beemeteo/sources/era5/utils.py:166 | `x - shift(x, 1)` is NaN at the start and each cell minus the previous one elsewhere, NaN wherever either is NaN |
| Era5Transform.PositiveRate | src/beemeteo/sources/era5/utils.py:167 | a positive difference becomes a positive rate that is that difference spread over 3600 seconds; anything else becomes the fallback |
| Era5Transform.RadiationRate | src/beemeteo/sources/era5/utils.py:166-167 | the GHI rate column has one cell per input cell; its values are stated by RadiationRateValues |
| Era5Transform.RadiationRateValues | src/beemeteo/sources/era5/utils.py:166-167 | the GHI rate is 0 in the first hour, the positive difference over 3600 where there is one and 0 elsewhere; it is never NaN or negative |
| Era5Transform.PrecipitationRate | src/beemeteo/sources/era5/utils.py:168-169 | the precipitation rate column has one cell per input cell; its values are stated by PrecipitationRateValues |
| Era5Transform.PrecipitationRateValues | src/beemeteo/sources/era5/utils.py:168-169 | the precipitation rate is NaN in the first hour and for every non-positive difference, the difference over 3600 otherwise, and positive wherever defined |
| Era5Transform.RatesAgreeOnPositiveDifferences | src/beemeteo/sources/era5/utils.py:166-169 | the two rates differ only in what they give for a non-positive difference |
| Era5Transform.ToCelsius | src/beemeteo/sources/era5/utils.py:160-162 | the converted column has the same length and the same NaN cells |
| Era5Transform.ToCelsiusRoundTrip | src/beemeteo/sources/era5/utils.py:160-162 | adding 273.15 back restores the column, and differences between temperatures are kept |
| Era5Transform.HourlyFrame.Transform | src/beemeteo/sources/era5/utils.py:156-171 | the three temperatures become Celsius, GHI and precipitation become hourly rates, and the row count is kept |
| Decimal.RoundHalfEven | src/beemeteo/sources/era5/utils.py:145 | the result is within a half of its argument, and a tie goes to the even neighbour |
| Decimal.RoundHalfEvenUnique | src/beemeteo/sources/era5/utils.py:145 | the rounding is the integer strictly closer than a half, when there is one |
| Decimal.RoundTenths | src/beemeteo/sources/era5/utils.py:145 | `round(x, 1)` lies within 0.05 of `x` |
| Decimal.SameTenthIsNear | src/beemeteo/sources/era5/utils.py:145 | two coordinates with the same rounded tenth lie within 0.1 of each other |
| Decimal.FormatFixed1 | src/beemeteo/sources/meteogalicia/__init__.py:34-35 | the text starts with `-` exactly for a negative number |
| Decimal.FormatFixed1RoundTrip | src/beemeteo/sources/meteogalicia/__init__.py:34-35 | `float(format(x, '.1f'))` is `x` rounded to the nearest tenth |
| Text.IntToStringRoundTrip | src/beemeteo/sources/era5/utils.py:91 | `float(str(n))` gives `n` back for every integer |
| Text.DecimalStringRoundTrip | src/beemeteo/sources/era5/utils.py:91 | `float` reads a one-decimal text back as the number of tenths it was printed from, over ten |
| Text.SplitJoin | src/beemeteo/sources/era5/utils.py:177-180 | joining fields without the separator on `_` and splitting again gives the fields back |
| Text.SortStrings | src/beemeteo/sources/era5/utils.py:175 | the sorted list is in code-point order and a permutation of its input |
| Text.SortedPermutationsEqual | src/beemeteo/sources/era5/utils.py:175 | only one ordering of a list is sorted, so the sort is Python's `sorted` |
| MeteoGaliciaDay.LocalDate | src/beemeteo/sources/meteogalicia/__init__.py:82-83 | the local calendar day contains the instant |
| MeteoGaliciaDay.ElapsedDays | src/beemeteo/sources/meteogalicia/__init__.py:145-147 | `timedelta.days` is the number of whole days, rounded down |
| MeteoGaliciaDay.DayUrl | src/beemeteo/sources/meteogalicia/__init__.py:145-219 | an address names the day's local date, the grid's domain and the requested point |
| MeteoGaliciaDay.DayUrlChoice | src/beemeteo/sources/meteogalicia/__init__.py:145-219 | the recent catalogue is used exactly when the day starts less than 15 days before the clock; every address names the day's date, the grid's domain and, for the recent catalogue, the grid's km and run 0 |
| MeteoGaliciaDay.DayUrls | src/beemeteo/sources/meteogalicia/__init__.py:126-127 | one address per grid, in the order (4,2), (12,2), (12,1), (36,2), (36,1) |
| MeteoGaliciaDay.FirstUsable | src/beemeteo/sources/meteogalicia/__init__.py:127-241 | the index of the first answer with rows; every earlier answer failed or was empty |
| MeteoGaliciaDay.DayData | src/beemeteo/sources/meteogalicia/__init__.py:117-241 | a non-empty day table is the answer of one of the day's addresses |
| MeteoGaliciaDay.DayDataFirstNonEmpty | src/beemeteo/sources/meteogalicia/__init__.py:127-241 | the day table is the first non-empty answer, and it is empty exactly when no grid answered with rows |
| MeteoGaliciaDay.GetHistoricDataDay | src/beemeteo/sources/meteogalicia/__init__.py:117-241 | the loop returns the first non-empty answer; it requests the addresses in order and stops at that answer, or tries all five |
| MeteoGaliciaDay.FirstUsableAt | src/beemeteo/sources/meteogalicia/__init__.py:127-238 | a usable index with no usable index before it is the first one |
| MeteoGaliciaHistory.LocalMidnight | src/beemeteo/sources/meteogalicia/__init__.py:82-83 | `localize(combine(date, 00:00))` is the instant of that date's local midnight |
| MeteoGaliciaHistory.NeedsPreviousDayOffset | src/beemeteo/sources/meteogalicia/__init__.py:86-92 | the day before is fetched exactly in zones east of UTC-01:00 |
| MeteoGaliciaHistory.DateRangeMidnights | src/beemeteo/sources/meteogalicia/__init__.py:94 | `date_range` between two local midnights is each date's midnight, first to last |
| MeteoGaliciaHistory.GapDaysSpec | src/beemeteo/sources/meteogalicia/__init__.py:82-97 | a gap fetches one local midnight per date, from its first date (or the day before) through its last date |
| MeteoGaliciaHistory.ConcatDaysEmpty | src/beemeteo/sources/meteogalicia/__init__.py:94-97 | the period is empty exactly when every fetched day came back empty |
| MeteoGaliciaHistory.InsertByTs | src/beemeteo/sources/meteogalicia/__init__.py:98 | inserting into a sorted table keeps it sorted and adds exactly the one row |
| MeteoGaliciaHistory.SortByTs | src/beemeteo/sources/meteogalicia/__init__.py:98 | `sort_values(by=["ts"])` gives a permutation sorted by timestamp |
| MeteoGaliciaHistory.Window | src/beemeteo/sources/meteogalicia/__init__.py:99-104 | the query keeps exactly the rows in the window, and a sorted table stays sorted |
| MeteoGaliciaHistory.GapRows | src/beemeteo/sources/meteogalicia/__init__.py:79-104 | a gap's rows are sorted by timestamp and lie within its window |
| MeteoGaliciaHistory.GapRowsSpec | src/beemeteo/sources/meteogalicia/__init__.py:79-104 | a gap raises `KeyError: 'ts'` exactly when every fetched day was empty; otherwise its rows are sorted and are exactly the fetched rows in its window |
| MeteoGaliciaHistory.AllGapRows | src/beemeteo/sources/meteogalicia/__init__.py:78-105 | the gaps raise exactly when one does; otherwise a row is present exactly when some gap kept it |
| MeteoGaliciaHistory.DropDuplicates | src/beemeteo/sources/meteogalicia/__init__.py:110 | `drop_duplicates` keeps only rows it was given |
| MeteoGaliciaHistory.DedupDistinct | src/beemeteo/sources/meteogalicia/__init__.py:110 | after `drop_duplicates`, no two rows share (latitude, longitude, ts) |
| MeteoGaliciaHistory.DedupComplete | src/beemeteo/sources/meteogalicia/__init__.py:110 | every key keeps a row |
| MeteoGaliciaHistory.DedupKeepsFirst | src/beemeteo/sources/meteogalicia/__init__.py:110 | the row kept for a key is its first occurrence |
| MeteoGaliciaHistory.DedupOrdered | src/beemeteo/sources/meteogalicia/__init__.py:107-110 | de-duplication keeps the timestamp order |
| MeteoGaliciaHistory.NonKey | src/beemeteo/sources/meteogalicia/__init__.py:113 | the selected labels are exactly those that are not key columns |
| MeteoGaliciaHistory.ResultColumnsOrdered | src/beemeteo/sources/meteogalicia/__init__.py:111-114 | a frame with rows gets the key columns first, then the other labels sorted, each once |
| MeteoGaliciaHistory.MergedColumns | src/beemeteo/sources/meteogalicia/__init__.py:111-114 | here the labels are latitude, longitude, ts, GHI; an empty frame keeps its labels |
| MeteoGaliciaHistory.SortByTsMembers | src/beemeteo/sources/meteogalicia/__init__.py:107 | sorting keeps exactly the rows it is given |
| MeteoGaliciaHistory.LocateSpec | src/beemeteo/sources/meteogalicia/__init__.py:107-109 | located rows keep the order, sit at the requested point and carry the given rows |
| MeteoGaliciaHistory.MergeSpec | src/beemeteo/sources/meteogalicia/__init__.py:107-110 | merged rows rise strictly in ts, sit at the point, come from the gap rows and cover every gap timestamp |
| MeteoGaliciaHistory.MergedGapRows | src/beemeteo/sources/meteogalicia/__init__.py:78-114 | every merged row lies in the window of a gap that kept it, and every timestamp a gap kept is present |
| MeteoGaliciaHistory.HistoricalData | src/beemeteo/sources/meteogalicia/__init__.py:76-115 | no gap at all raises, and every failure is `KeyError: 'ts'` |
| MeteoGaliciaHistory.HistoricalDataSpec | src/beemeteo/sources/meteogalicia/__init__.py:76-115 | raises exactly when there is no gap or some gap fetched nothing; otherwise gives the merged gap rows under latitude, longitude, ts, GHI |
| MeteoGaliciaHistory.FetchDays | src/beemeteo/sources/meteogalicia/__init__.py:94-97 | the inner loop fetches each day of the range in order and concatenates the day tables |
| MeteoGaliciaHistory.FirstDay | src/beemeteo/sources/meteogalicia/__init__.py:82-92 | the loop starts at the gap's first local midnight, or a day earlier when 01:00 UTC comes after it |
| MeteoGaliciaHistory.CollectGap | src/beemeteo/sources/meteogalicia/__init__.py:79-104 | one gap's rows and requested days are those of the gap specification |
| MeteoGaliciaHistory.GetHistoricalDataSource | src/beemeteo/sources/meteogalicia/__init__.py:76-115 | the loops compute the specified result; the requested days are a prefix of all gap days, and all of them when nothing raised |
| MeteoGaliciaForecast.Tag | src/beemeteo/sources/meteogalicia/__init__.py:24-27 | each row is renamed and given the location and the forecast time |
| MeteoGaliciaForecast.FromNow | src/beemeteo/sources/meteogalicia/__init__.py:28 | the query keeps exactly the rows at or after `now` |
| MeteoGaliciaForecast.CollectForecasting | src/beemeteo/sources/meteogalicia/__init__.py:21-29 | every forecast row is at or after `now` and carries `now` as its forecasting time |
| MeteoGaliciaForecast.CollectForecastingSpec | src/beemeteo/sources/meteogalicia/__init__.py:21-29 | raises exactly when no grid answered with rows; otherwise every day-table row at or after `now` is present, tagged, and nothing else |
| MeteoGaliciaForecast.PrepareForecastingInput | src/beemeteo/sources/meteogalicia/__init__.py:31-43 | the window is the arguments' instants and the key mapping is that of line 32 |
| MeteoGaliciaForecast.PrepareForecastingInputSpec | src/beemeteo/sources/meteogalicia/__init__.py:31-43 | the coordinates read back as their rounded tenths with the right sign; the window is the argument instants; the key mapping numbers the four key columns 0 to 3, one each |
| MeteoGaliciaRaster.TenthsTextRoundTrip | src/beemeteo/sources/meteogalicia/__init__.py:59-60 | the text of a number of tenths reads back as that number |
| MeteoGaliciaRaster.CoordTextIsTenths | src/beemeteo/sources/meteogalicia/__init__.py:59-63 | a coordinate's text depends only on its rounded tenth, and is never "-0.0" |
| MeteoGaliciaRaster.CoordTextSameGroup | src/beemeteo/sources/meteogalicia/__init__.py:59-63 | two coordinates share a text exactly when they round to the same tenth |
| MeteoGaliciaRaster.KeyLessTransitive | src/beemeteo/sources/meteogalicia/__init__.py:70 | the group-key order is transitive |
| MeteoGaliciaRaster.KeyLessTrichotomy | src/beemeteo/sources/meteogalicia/__init__.py:70 | any two keys are equal or ordered one way, never both ways |
| MeteoGaliciaRaster.GroupKeys | src/beemeteo/sources/meteogalicia/__init__.py:70 | the group keys are strictly increasing and are exactly the cells' keys |
| MeteoGaliciaRaster.Group | src/beemeteo/sources/meteogalicia/__init__.py:70-71 | a group holds exactly the cells with its key |
| MeteoGaliciaRaster.Present | src/beemeteo/sources/meteogalicia/__init__.py:68-71 | every value averaged is a non-NaN value of a group cell in that column, and every such value is averaged |
| MeteoGaliciaRaster.GroupValues | src/beemeteo/sources/meteogalicia/__init__.py:68-71 | counted with repetitions, the values averaged for a key are exactly the non-NaN values the cells of that key hold in that column |
| MeteoGaliciaRaster.SumPermutation | src/beemeteo/sources/meteogalicia/__init__.py:68-71 | the sum, and so the mean, does not depend on the order of the values |
| MeteoGaliciaRaster.SumBounds | src/beemeteo/sources/meteogalicia/__init__.py:68-71 | the sum of bounded values is bounded by the count times the bounds |
| MeteoGaliciaRaster.MeanBounds | src/beemeteo/sources/meteogalicia/__init__.py:68-71 | the mean of non-empty bounded values lies within the bounds |
| MeteoGaliciaRaster.Aggregated | src/beemeteo/sources/meteogalicia/__init__.py:70-72 | the row of a key carries that key and one value per mean column |
| MeteoGaliciaRaster.Aggregate | src/beemeteo/sources/meteogalicia/__init__.py:70-72 | one output row per group key, in key order |
| MeteoGaliciaRaster.AggregateOrdered | src/beemeteo/sources/meteogalicia/__init__.py:70-72 | the output rows rise strictly in key order, so no key repeats |
| MeteoGaliciaRaster.AggregateCovers | src/beemeteo/sources/meteogalicia/__init__.py:70-72 | every cell's key has a row and every row's key is some cell's |
| MeteoGaliciaRaster.CollectRaster | src/beemeteo/sources/meteogalicia/__init__.py:49-74 | raises exactly when a dropped, key or mean column is missing |
| MeteoGaliciaRaster.CollectRasterKeys | src/beemeteo/sources/meteogalicia/__init__.py:49-74 | raises exactly when a dropped, key or mean column is missing; otherwise the rows have increasing, distinct keys that are exactly the cells' keys |
| MeteoGaliciaRaster.AggregatedMean | src/beemeteo/sources/meteogalicia/__init__.py:65-71 | a group's mean is NaN exactly when no cell has a value there, and otherwise lies within any bounds of those values |
| MeteoGaliciaRaster.CollectRasterMeans | src/beemeteo/sources/meteogalicia/__init__.py:65-74 | each output row has eleven means, each NaN exactly when its group has no value in that column and otherwise within the group's bounds |
| MeteoGaliciaRaster.AggregatedIsMean | src/beemeteo/sources/meteogalicia/__init__.py:65-71 | column `j` of a key's row is the mean of the non-NaN values the cells of that key hold in column `j`, listed in any order |
| MeteoGaliciaRaster.CollectRasterMeanOf | src/beemeteo/sources/meteogalicia/__init__.py:65-74 | every output value of `_collect_raster` is the mean of its group's non-NaN values in that column |

## Left out

- Network, disk and decoding calls are parameters or inputs. This covers the CDS client, `os.makedirs`, `os.listdir`, `os.path.exists`, `requests.get`, `pd.read_csv`, `cfgrib.open_datasets`, the temporary index file and its random name.
- The exact spelling of the MeteoGalicia catalogue URLs is left out. An address is a datatype with the parts the code fills in: grid km, domain, date, run and point.
- Logging, `tqdm` and the `sys.stderr` messages are left out: they do not affect results.
- The `raise print(...)` credential path of `get_hourly_historical_weather_from_ERA5Land` is left out; the model starts once a client exists.
- Wind speed, wind direction and relative humidity (utils.py:158-159 and 163-165) are left out because they are transcendental (`sqrt`, `arctan2`, `exp`).
- The UTC localisation of `time` (utils.py:157) is left out: time is already UTC in the model.
- The per-file `pd.merge` in `query_from_grib` (utils.py:195-199) is left out. Decoding one file, cleaning it, merging its datasets and transforming it is the `load` parameter, which may raise. The model keeps the file order, the concatenation and the failure of any one file. OneCoordinateLoadRaises shows the loading raising through the cleaning as written.
- Floating point is modelled as exact reals:
  - `- 273.15` and `/ 3600` are exact;
  - `round` is exact round-half-even on the real value;
  - `str` of a rounded coordinate is taken to be its one-decimal text, which holds below 1e16 in magnitude.
  - A float bounding-box coordinate is the text `str` prints for it without an exponent, read as an exact decimal. The binary value behind that text is not modelled, nor are floats that `str` writes with an exponent (1e16 or more, or below 1e-4, in magnitude).
- Timezones are fixed UTC offsets. Daylight-saving changes inside a gap, and pytz's `localize` of an ambiguous local time, are left out.
- The `beemeteo.utils` conversions `_pandas_dt_to_ts_utc`, `_pandas_to_tz`, `_datetime_to_tz` and `_datetime_dt_to_ts_utc` are not part of this model. They are taken to keep the instant. A day table holds UTC timestamps already.
- `_get_historic_forecasting_raster` is not part of this model. `_collect_raster` starts from its frame: the column labels, plus cells whose mean-column values are aligned with `MeanColumns`. The `datetime64[s]` to integer conversion of lines 53-55 is taken as done.
- `float()` on a field reads only an optional sign, digits and at most one decimal point. Exponents, `inf`, `nan`, underscores between digits and surrounding spaces are left out.
- `sort_values` is modelled as a stable sort. pandas' default quicksort is not stable, so rows with equal `ts` may come out in another order. `drop_duplicates` then keeps the model's first row for a repeated key.
- Era5Download.DownloadMonths: requires non-empty `ym_range`, `lat_range` and `lon_range`. The source raises `ValueError` from `min`/`max` on an empty list, and that path is not modelled.
- Era5Download.DownloadMonths: requires six-digit year-months, the form `str(ym)[0:4]` and `[4:6]` slice correctly. Other widths are not modelled.
- Era5Variables.CleanCells: it is the corrected pipeline of the Findings row, so for one coordinate without the other it filters on that coordinate where the code raises. CleanCellsAsWritten models the code as written.
- Era5Variables.Era5LandVariables: its contract states only the count. The table's contents are stated by LongNamesDistinct, ShortNamesDistinct, NamesDistinct and RenameTableInjective.

## Findings

| source | as written | input that shows it | evidently intended | confidence | as-written member | corrected member |
|---|---|---|---|---|---|---|
| src/beemeteo/sources/era5/utils.py:144-149 | `if lat is not None or lon is not None` rounds both coordinates, so the `elif` branches for a single coordinate can never run | `lat=41.5, lon=None`: `np.round(None, 1)` raises TypeError instead of filtering on the latitude | filter on each coordinate that is given (an `and` in the first test) | high, not executed | Era5Variables.OnlyLatitudeRaises | Era5Variables.KeepsCell |
