/** Filling the gaps of the local store from MeteoGalicia:
    `_get_historical_data_source` (src/beemeteo/sources/meteogalicia/__init__.py).
    The local zone is a fixed UTC offset in seconds, and the gaps, which the base
    class computes, are an input. */
module MeteoGaliciaHistory {
  import opened Wrappers
  import opened Text
  import opened MeteoGaliciaDay

  /** A gap: its first and its last missing instant. Only their dates are used. */
  datatype Gap = Gap(ini: Instant, end: Instant)

  // ---------------------------------------------------------------------------
  // Day expansion

  /** `local_tz.localize(datetime.combine(date, time.min))`: local midnight of a
      date. */
  function LocalMidnight(date: int, offset: int): (t: Instant)
    ensures t.offset == offset && LocalDate(t) == date
    ensures (t.ts + t.offset) % SecondsPerDay == 0
  {
    Instant(date * SecondsPerDay - offset, offset)
  }

  /** Lines 87-89: MeteoGalicia's day starts at 01:00 UTC; when that instant comes
      after local midnight, the day before must be fetched too. */
  predicate NeedsPreviousDay(date: int, offset: int) {
    date * SecondsPerDay + SecondsPerHour > LocalMidnight(date, offset).ts
  }

  /** The previous day is fetched exactly in the zones east of UTC-01:00. */
  lemma NeedsPreviousDayOffset(date: int, offset: int)
    ensures NeedsPreviousDay(date, offset) <==> offset > -SecondsPerHour
  {
  }

  /** Lines 82-93: where the day loop of a gap starts. */
  function LoopStart(gap: Gap, offset: int): Instant {
    var iniMidnight := LocalMidnight(LocalDate(gap.ini), offset);
    if NeedsPreviousDay(LocalDate(gap.ini), offset) then Instant(iniMidnight.ts - SecondsPerDay, offset)
    else iniMidnight
  }

  /** `pd.date_range(start, end, freq="1d")`: every day from `start` while not past
      `end`. */
  function DateRange(start: Instant, end: Instant): seq<Instant>
    decreases end.ts - start.ts
  {
    if start.ts > end.ts then [] else [start] + DateRange(Instant(start.ts + SecondsPerDay, start.offset), end)
  }

  /** The days fetched for a gap. */
  function GapDays(gap: Gap, offset: int): seq<Instant> {
    DateRange(LoopStart(gap, offset), LocalMidnight(LocalDate(gap.end), offset))
  }

  /** The date range between two local midnights is the local midnight of every
      date from the first through the last. */
  lemma {:induction false} DateRangeMidnights(first: int, last: int, offset: int)
    ensures |DateRange(LocalMidnight(first, offset), LocalMidnight(last, offset))| == if last >= first then last - first + 1 else 0
    ensures forall k :: 0 <= k < |DateRange(LocalMidnight(first, offset), LocalMidnight(last, offset))| ==>
      DateRange(LocalMidnight(first, offset), LocalMidnight(last, offset))[k] == LocalMidnight(first + k, offset)
    decreases last - first
  {
    if last >= first {
      DateRangeMidnights(first + 1, last, offset);
      assert Instant(LocalMidnight(first, offset).ts + SecondsPerDay, offset) == LocalMidnight(first + 1, offset);
    } else {
      assert LocalMidnight(first, offset).ts > LocalMidnight(last, offset).ts;
    }
  }

  /** The first date the loop fetches: the gap's first date, or the day before. */
  function FirstFetchedDate(gap: Gap, offset: int): int {
    if offset > -SecondsPerHour then LocalDate(gap.ini) - 1 else LocalDate(gap.ini)
  }

  /** One fetch per date, each at local midnight, from the loop's first date through
      the gap's last date inclusive. */
  lemma GapDaysSpec(gap: Gap, offset: int)
    ensures var first, last := FirstFetchedDate(gap, offset), LocalDate(gap.end);
      |GapDays(gap, offset)| == (if last >= first then last - first + 1 else 0) &&
      forall k :: 0 <= k < |GapDays(gap, offset)| ==> GapDays(gap, offset)[k] == LocalMidnight(first + k, offset)
  {
    var first := FirstFetchedDate(gap, offset);
    NeedsPreviousDayOffset(LocalDate(gap.ini), offset);
    assert LoopStart(gap, offset) == LocalMidnight(first, offset);
    DateRangeMidnights(first, LocalDate(gap.end), offset);
  }

  // ---------------------------------------------------------------------------
  // Rows of one gap

  /** The day tables of `days`, one after another (`pd.concat`). */
  function ConcatDays(latitude: real, longitude: real, days: seq<Instant>, clock: int, fetch: Url -> Response): seq<SolarRow>
  {
    if days == [] then []
    else DayData(latitude, longitude, days[0], clock, fetch) + ConcatDays(latitude, longitude, days[1..], clock, fetch)
  }

  /** The concatenation is empty exactly when every day came back empty. */
  lemma {:induction false} ConcatDaysEmpty(latitude: real, longitude: real, days: seq<Instant>, clock: int, fetch: Url -> Response)
    ensures ConcatDays(latitude, longitude, days, clock, fetch) == [] <==>
      forall d :: d in days ==> DayData(latitude, longitude, d, clock, fetch) == []
  {
    if days != [] {
      ConcatDaysEmpty(latitude, longitude, days[1..], clock, fetch);
      assert forall d :: d in days <==> d == days[0] || d in days[1..];
    }
  }

  predicate SortedByTs(rows: seq<SolarRow>) {
    forall i, j :: 0 <= i < j < |rows| ==> rows[i].ts <= rows[j].ts
  }

  /** Puts `x` after every row whose timestamp is not later than its own. */
  function InsertByTs(x: SolarRow, rows: seq<SolarRow>): (r: seq<SolarRow>)
    requires SortedByTs(rows)
    ensures multiset(r) == multiset(rows) + multiset{x}
    ensures forall j :: 0 <= j < |r| ==> r[j] == x || r[j] in rows
    ensures SortedByTs(r)
  {
    if rows == [] then [x]
    else if x.ts < rows[0].ts then [x] + rows
    else
      var rest := InsertByTs(x, rows[1..]);
      InsertByTsBehind(x, rows, rest);
      assert rows == [rows[0]] + rows[1..];
      [rows[0]] + rest
  }

  lemma InsertByTsBehind(x: SolarRow, rows: seq<SolarRow>, rest: seq<SolarRow>)
    requires SortedByTs(rows) && rows != [] && rows[0].ts <= x.ts
    requires SortedByTs(rest)
    requires forall j :: 0 <= j < |rest| ==> rest[j] == x || rest[j] in rows[1..]
    ensures SortedByTs([rows[0]] + rest)
  {
    forall j | 0 <= j < |rest| ensures rows[0].ts <= rest[j].ts {
      if rest[j] != x {
        var k :| 0 <= k < |rows[1..]| && rows[1..][k] == rest[j];
        assert rows[k + 1] == rest[j];
      }
    }
  }

  /** `sort_values(by=["ts"])`, as a stable insertion sort. */
  function SortByTs(rows: seq<SolarRow>): (r: seq<SolarRow>)
    ensures SortedByTs(r)
    ensures multiset(r) == multiset(rows)
  {
    if rows == [] then []
    else
      assert rows == rows[..|rows| - 1] + [rows[|rows| - 1]];
      InsertByTs(rows[|rows| - 1], SortByTs(rows[..|rows| - 1]))
  }

  /** The `query` of lines 99-104: the rows from `lo` through `hi`, order kept. */
  function Window(rows: seq<SolarRow>, lo: int, hi: int): (r: seq<SolarRow>)
    ensures forall x :: x in r <==> x in rows && lo <= x.ts <= hi
    ensures SortedByTs(rows) ==> SortedByTs(r)
  {
    if rows == [] then []
    else
      var rest := Window(rows[1..], lo, hi);
      assert forall x :: x in rows <==> x == rows[0] || x in rows[1..];
      if lo <= rows[0].ts <= hi then [rows[0]] + rest else rest
  }

  /** The first and last instant a gap keeps: its first date's local midnight and
      23:00 of its last date. */
  function WindowStart(gap: Gap, offset: int): int {
    LocalMidnight(LocalDate(gap.ini), offset).ts
  }

  function WindowEnd(gap: Gap, offset: int): int {
    LocalMidnight(LocalDate(gap.end), offset).ts + 23 * SecondsPerHour
  }

  /** Lines 79-104 for one gap: the fetched days' rows, sorted and cut to the
      window. When every day came back without columns, `sort_values` raises
      `KeyError: 'ts'`. */
  function GapRows(latitude: real, longitude: real, gap: Gap, offset: int, clock: int, fetch: Url -> Response): (r: Result<seq<SolarRow>>)
    ensures r.Ok? ==> SortedByTs(r.value)
    ensures r.Ok? ==> forall x :: x in r.value ==> WindowStart(gap, offset) <= x.ts <= WindowEnd(gap, offset)
  {
    var collected := ConcatDays(latitude, longitude, GapDays(gap, offset), clock, fetch);
    if collected == [] then Failure("KeyError: 'ts'")
    else Ok(Window(SortByTs(collected), WindowStart(gap, offset), WindowEnd(gap, offset)))
  }

  /** A gap's rows are sorted, lie in its window, and are exactly the fetched rows
      in the window; the gap raises exactly when every fetched day was empty. */
  lemma GapRowsSpec(latitude: real, longitude: real, gap: Gap, offset: int, clock: int, fetch: Url -> Response)
    ensures var r := GapRows(latitude, longitude, gap, offset, clock, fetch);
      (r.Failure? <==> forall d :: d in GapDays(gap, offset) ==> DayData(latitude, longitude, d, clock, fetch) == []) &&
      (r.Failure? ==> r.error == "KeyError: 'ts'") &&
      (r.Ok? ==> (SortedByTs(r.value) &&
        (forall x :: x in r.value ==> WindowStart(gap, offset) <= x.ts <= WindowEnd(gap, offset)) &&
        (forall x :: x in r.value <==>
          (x in ConcatDays(latitude, longitude, GapDays(gap, offset), clock, fetch) &&
           WindowStart(gap, offset) <= x.ts <= WindowEnd(gap, offset)))))
  {
    var collected := ConcatDays(latitude, longitude, GapDays(gap, offset), clock, fetch);
    ConcatDaysEmpty(latitude, longitude, GapDays(gap, offset), clock, fetch);
    var sorted := SortByTs(collected);
    assert forall x :: x in sorted <==> x in collected by {
      forall x ensures x in sorted <==> x in collected {
        assert x in sorted <==> x in multiset(sorted);
        assert x in collected <==> x in multiset(collected);
      }
    }
  }

  /** The rows of all gaps, gap after gap (`missing_data`); the first gap that
      raises stops the loop. */
  function AllGapRows(latitude: real, longitude: real, gaps: seq<Gap>, offset: int, clock: int, fetch: Url -> Response): (r: Result<seq<SolarRow>>)
    ensures r.Failure? <==> exists g :: g in gaps && GapRows(latitude, longitude, g, offset, clock, fetch).Failure?
    ensures r.Failure? ==> r.error == "KeyError: 'ts'"
    ensures r.Ok? ==> forall x :: x in r.value <==>
      exists g :: g in gaps && x in GapRows(latitude, longitude, g, offset, clock, fetch).value
  {
    if gaps == [] then Ok([])
    else
      var n := |gaps| - 1;
      assert forall g :: g in gaps <==> g in gaps[..n] || g == gaps[n] by { assert gaps == gaps[..n] + [gaps[n]]; }
      var previous :- AllGapRows(latitude, longitude, gaps[..n], offset, clock, fetch);
      var rows :- GapRows(latitude, longitude, gaps[n], offset, clock, fetch);
      Ok(previous + rows)
  }

  /** The days requested for all gaps, gap after gap. */
  function AllGapDays(gaps: seq<Gap>, offset: int): seq<Instant> {
    if gaps == [] then [] else AllGapDays(gaps[..|gaps| - 1], offset) + GapDays(gaps[|gaps| - 1], offset)
  }

  // ---------------------------------------------------------------------------
  // The merged result

  /** A row of the result, keyed by (latitude, longitude, ts). */
  datatype MergedRow = MergedRow(latitude: real, longitude: real, ts: int, ghi: Option<real>)

  /** The result: column labels in order, and rows. */
  datatype Merged = Merged(columns: seq<string>, rows: seq<MergedRow>)

  /** The subset `drop_duplicates` compares. */
  function KeyOf(r: MergedRow): (real, real, int) {
    (r.latitude, r.longitude, r.ts)
  }

  /** Lines 108-109: every row gets the requested coordinates. */
  function Locate(rows: seq<SolarRow>, latitude: real, longitude: real): (r: seq<MergedRow>)
    ensures |r| == |rows|
    ensures forall i :: 0 <= i < |rows| ==> r[i] == MergedRow(latitude, longitude, rows[i].ts, rows[i].ghi)
  {
    seq(|rows|, i requires 0 <= i < |rows| => MergedRow(latitude, longitude, rows[i].ts, rows[i].ghi))
  }

  /** `drop_duplicates(subset=['latitude', 'longitude', 'ts'])` with `keep='first'`,
      scanning the rows in order; `seen` holds the keys met so far. */
  function Dedup(rows: seq<MergedRow>, seen: set<(real, real, int)>): (r: seq<MergedRow>)
    ensures forall x :: x in r ==> x in rows && KeyOf(x) !in seen
  {
    if rows == [] then []
    else if KeyOf(rows[0]) in seen then Dedup(rows[1..], seen)
    else [rows[0]] + Dedup(rows[1..], seen + {KeyOf(rows[0])})
  }

  function DropDuplicates(rows: seq<MergedRow>): (kept: seq<MergedRow>)
    ensures forall x :: x in kept ==> x in rows
  {
    Dedup(rows, {})
  }

  /** No two surviving rows share a key. */
  lemma {:induction false} DedupDistinct(rows: seq<MergedRow>, seen: set<(real, real, int)>)
    ensures forall i, j :: 0 <= i < j < |Dedup(rows, seen)| ==> KeyOf(Dedup(rows, seen)[i]) != KeyOf(Dedup(rows, seen)[j])
  {
    if rows != [] && KeyOf(rows[0]) !in seen {
      var seen' := seen + {KeyOf(rows[0])};
      DedupDistinct(rows[1..], seen');
      assert Dedup(rows, seen) == [rows[0]] + Dedup(rows[1..], seen');
      ConsDistinctKeys(rows[0], Dedup(rows[1..], seen'));
    } else if rows != [] {
      DedupDistinct(rows[1..], seen);
    }
  }

  lemma ConsDistinctKeys(x: MergedRow, rest: seq<MergedRow>)
    requires forall y :: y in rest ==> KeyOf(y) != KeyOf(x)
    requires forall i, j :: 0 <= i < j < |rest| ==> KeyOf(rest[i]) != KeyOf(rest[j])
    ensures forall i, j :: 0 <= i < j < |[x] + rest| ==> KeyOf(([x] + rest)[i]) != KeyOf(([x] + rest)[j])
  {
    var r := [x] + rest;
    forall i, j | 0 <= i < j < |r| ensures KeyOf(r[i]) != KeyOf(r[j]) {
      if i == 0 {
        assert r[j] == rest[j - 1] && r[j] in rest;
      } else {
        assert r[i] == rest[i - 1] && r[j] == rest[j - 1];
      }
    }
  }

  /** Every key of `rows` outside `seen` has a surviving row. */
  predicate KeepsEveryKey(rows: seq<MergedRow>, seen: set<(real, real, int)>, r: seq<MergedRow>) {
    forall x :: x in rows && KeyOf(x) !in seen ==> exists y :: y in r && KeyOf(y) == KeyOf(x)
  }

  /** Every key met outside `seen` keeps a row. */
  lemma {:induction false} DedupComplete(rows: seq<MergedRow>, seen: set<(real, real, int)>)
    ensures KeepsEveryKey(rows, seen, Dedup(rows, seen))
  {
    if rows != [] {
      var head := rows[0];
      if KeyOf(head) in seen {
        DedupComplete(rows[1..], seen);
        CompleteSkip(rows, seen, Dedup(rows[1..], seen));
      } else {
        var seen' := seen + {KeyOf(head)};
        DedupComplete(rows[1..], seen');
        CompleteKeep(rows, seen, Dedup(rows[1..], seen'));
      }
    }
  }

  /** Completeness when the head's key was already seen. */
  lemma CompleteSkip(rows: seq<MergedRow>, seen: set<(real, real, int)>, rest: seq<MergedRow>)
    requires rows != [] && KeyOf(rows[0]) in seen && KeepsEveryKey(rows[1..], seen, rest)
    ensures KeepsEveryKey(rows, seen, rest)
  {
    forall x | x in rows && KeyOf(x) !in seen ensures x in rows[1..] {
      assert x != rows[0];
    }
  }

  /** Completeness when the head is kept. */
  lemma CompleteKeep(rows: seq<MergedRow>, seen: set<(real, real, int)>, rest: seq<MergedRow>)
    requires rows != [] && KeepsEveryKey(rows[1..], seen + {KeyOf(rows[0])}, rest)
    ensures KeepsEveryKey(rows, seen, [rows[0]] + rest)
  {
    var r := [rows[0]] + rest;
    forall x | x in rows && KeyOf(x) !in seen ensures exists y :: y in r && KeyOf(y) == KeyOf(x) {
      if KeyOf(x) == KeyOf(rows[0]) {
        assert rows[0] in r;
      } else {
        assert x in rows[1..];
        var y :| y in rest && KeyOf(y) == KeyOf(x);
        assert y in r;
      }
    }
  }

  /** Each row of `r` is the first row of `rows` with its key. */
  predicate FirstOfKey(rows: seq<MergedRow>, r: seq<MergedRow>) {
    forall x :: x in r ==>
      exists i :: 0 <= i < |rows| && rows[i] == x && forall j :: 0 <= j < i ==> KeyOf(rows[j]) != KeyOf(x)
  }

  /** A surviving row is the first row with its key. */
  lemma {:induction false} DedupKeepsFirst(rows: seq<MergedRow>, seen: set<(real, real, int)>)
    ensures FirstOfKey(rows, Dedup(rows, seen))
  {
    if rows != [] {
      var head := rows[0];
      if KeyOf(head) in seen {
        DedupKeepsFirst(rows[1..], seen);
        FirstSkip(rows, seen, Dedup(rows[1..], seen));
      } else {
        var seen' := seen + {KeyOf(head)};
        DedupKeepsFirst(rows[1..], seen');
        FirstSkip(rows, seen', Dedup(rows[1..], seen'));
        FirstKeep(rows, Dedup(rows[1..], seen'));
      }
    }
  }

  /** Rows of the tail whose key is seen, the head's key included, stay first. */
  lemma FirstSkip(rows: seq<MergedRow>, seen: set<(real, real, int)>, rest: seq<MergedRow>)
    requires rows != [] && KeyOf(rows[0]) in seen && FirstOfKey(rows[1..], rest)
    requires forall x :: x in rest ==> KeyOf(x) !in seen
    ensures FirstOfKey(rows, rest)
  {
    forall x | x in rest
      ensures exists i :: 0 <= i < |rows| && rows[i] == x && forall j :: 0 <= j < i ==> KeyOf(rows[j]) != KeyOf(x)
    {
      var i :| 0 <= i < |rows[1..]| && rows[1..][i] == x && forall j :: 0 <= j < i ==> KeyOf(rows[1..][j]) != KeyOf(x);
      assert rows[i + 1] == x;
      forall j | 0 <= j < i + 1 ensures KeyOf(rows[j]) != KeyOf(x) {
        if j > 0 { assert rows[j] == rows[1..][j - 1]; }
      }
    }
  }

  /** The kept head is the first row with its key. */
  lemma FirstKeep(rows: seq<MergedRow>, rest: seq<MergedRow>)
    requires rows != [] && FirstOfKey(rows, rest)
    ensures FirstOfKey(rows, [rows[0]] + rest)
  {
    forall x | x in [rows[0]] + rest
      ensures exists i :: 0 <= i < |rows| && rows[i] == x && forall j :: 0 <= j < i ==> KeyOf(rows[j]) != KeyOf(x)
    {
      if x == rows[0] {
        assert rows[0] == x;
      } else {
        assert x in rest;
      }
    }
  }

  /** Rows in non-decreasing `ts` order. */
  predicate NonDecreasingTs(rows: seq<MergedRow>) {
    forall i, j :: 0 <= i < j < |rows| ==> rows[i].ts <= rows[j].ts
  }

  /** De-duplication keeps the order of the rows it keeps. */
  lemma {:induction false} DedupOrdered(rows: seq<MergedRow>, seen: set<(real, real, int)>)
    requires NonDecreasingTs(rows)
    ensures NonDecreasingTs(Dedup(rows, seen))
  {
    if rows != [] {
      var seen' := if KeyOf(rows[0]) in seen then seen else seen + {KeyOf(rows[0])};
      assert NonDecreasingTs(rows[1..]) by {
        forall i, j | 0 <= i < j < |rows[1..]| ensures rows[1..][i].ts <= rows[1..][j].ts {
          assert rows[1..][i] == rows[i + 1] && rows[1..][j] == rows[j + 1];
        }
      }
      DedupOrdered(rows[1..], seen');
      var rest := Dedup(rows[1..], seen');
      forall i | 0 <= i < |rest| ensures rows[0].ts <= rest[i].ts {
        assert rest[i] in rows[1..];
      }
    }
  }

  /** The key columns and the label order of the result. */
  const KeyColumns: seq<string> := ["latitude", "longitude", "ts"]

  /** The labels of the frame before reordering: the day table's two columns, then
      the two assigned on lines 108-109. */
  const FrameColumns: seq<string> := ["ts", "GHI", "latitude", "longitude"]

  /** The labels of `cols` that are not key columns, order kept. */
  function NonKey(cols: seq<string>): (r: seq<string>)
    ensures forall c :: c in r <==> c in cols && c !in KeyColumns
  {
    if cols == [] then []
    else
      assert forall c :: c in cols <==> c == cols[0] || c in cols[1..];
      var rest := NonKey(cols[1..]);
      if cols[0] in KeyColumns then rest else [cols[0]] + rest
  }

  /** Lines 111-114: the key columns first, then the others sorted; an empty frame is
      left as it is. */
  function ResultColumns(cols: seq<string>, empty: bool): seq<string> {
    if empty then cols else KeyColumns + SortStrings(NonKey(cols))
  }

  /** For a frame with rows, the labels are the key columns followed by the other
      labels in sorted order, each once. */
  lemma ResultColumnsOrdered(cols: seq<string>)
    ensures ResultColumns(cols, false)[..3] == KeyColumns
    ensures Sorted(ResultColumns(cols, false)[3..])
    ensures multiset(ResultColumns(cols, false)[3..]) == multiset(NonKey(cols))
  {
    assert ResultColumns(cols, false)[3..] == SortStrings(NonKey(cols));
  }

  /** For this source the non-empty result's labels are exactly
      latitude, longitude, ts, GHI. */
  lemma MergedColumns()
    ensures ResultColumns(FrameColumns, false) == ["latitude", "longitude", "ts", "GHI"]
    ensures ResultColumns(FrameColumns, true) == FrameColumns
  {
    assert NonKey(FrameColumns) == ["GHI"];
  }

  /** `_get_historical_data_source`. With no gap at all, `missing_data` never gets a
      `ts` column and the final `sort_values` raises. */
  function HistoricalData(latitude: real, longitude: real, gaps: seq<Gap>, offset: int, clock: int, fetch: Url -> Response): (r: Result<Merged>)
    ensures gaps == [] ==> r.Failure?
    ensures r.Failure? ==> r.error == "KeyError: 'ts'"
  {
    if gaps == [] then Failure("KeyError: 'ts'")
    else
      var missing :- AllGapRows(latitude, longitude, gaps, offset, clock, fetch);
      var rows := DropDuplicates(Locate(SortByTs(missing), latitude, longitude));
      Ok(Merged(ResultColumns(FrameColumns, rows == []), rows))
  }

  /** Sorting keeps exactly the rows it is given. */
  lemma SortByTsMembers(rows: seq<SolarRow>)
    ensures forall x :: x in SortByTs(rows) <==> x in rows
  {
    var sorted := SortByTs(rows);
    forall x ensures x in sorted <==> x in rows {
      assert x in sorted <==> x in multiset(sorted);
      assert x in rows <==> x in multiset(rows);
    }
  }

  /** Locating sorted rows gives rows in the same order, at the requested point,
      each carrying one of the rows it was given. */
  lemma LocateSpec(sorted: seq<SolarRow>, latitude: real, longitude: real)
    requires SortedByTs(sorted)
    ensures NonDecreasingTs(Locate(sorted, latitude, longitude))
    ensures forall x :: x in Locate(sorted, latitude, longitude) ==>
      x.latitude == latitude && x.longitude == longitude && SolarRow(x.ts, x.ghi) in sorted
  {
    var located := Locate(sorted, latitude, longitude);
    forall x | x in located ensures x.latitude == latitude && x.longitude == longitude && SolarRow(x.ts, x.ghi) in sorted {
      var i :| 0 <= i < |located| && located[i] == x;
      assert sorted[i] == SolarRow(x.ts, x.ghi);
    }
  }

  /** The merged rows of the gap rows: strictly increasing in `ts`, every one at the
      requested point and taken from the gap rows, and every timestamp of the gap
      rows present. */
  lemma MergeSpec(missing: seq<SolarRow>, latitude: real, longitude: real)
    ensures var rows := DropDuplicates(Locate(SortByTs(missing), latitude, longitude));
      (forall i, j :: 0 <= i < j < |rows| ==> rows[i].ts < rows[j].ts) &&
      (forall x :: x in rows ==> x.latitude == latitude && x.longitude == longitude && SolarRow(x.ts, x.ghi) in missing) &&
      (forall y :: y in missing ==> exists x :: x in rows && x.ts == y.ts)
  {
    var sorted := SortByTs(missing);
    SortByTsMembers(missing);
    var located := Locate(sorted, latitude, longitude);
    LocateSpec(sorted, latitude, longitude);
    var rows := DropDuplicates(located);
    DedupOrdered(located, {});
    DedupDistinct(located, {});
    DedupComplete(located, {});
    DistinctKeysIncreasing(rows, latitude, longitude);
    LocatedKeysCover(missing, sorted, latitude, longitude, rows);
  }

  /** Rows at one point, in non-decreasing `ts` order and with distinct keys, are
      strictly increasing in `ts`. */
  lemma DistinctKeysIncreasing(rows: seq<MergedRow>, latitude: real, longitude: real)
    requires NonDecreasingTs(rows)
    requires forall i, j :: 0 <= i < j < |rows| ==> KeyOf(rows[i]) != KeyOf(rows[j])
    requires forall x :: x in rows ==> x.latitude == latitude && x.longitude == longitude
    ensures forall i, j :: 0 <= i < j < |rows| ==> rows[i].ts < rows[j].ts
  {
    forall i, j | 0 <= i < j < |rows| ensures rows[i].ts < rows[j].ts {
      assert rows[i] in rows && rows[j] in rows;
      assert KeyOf(rows[i]) != KeyOf(rows[j]);
    }
  }

  /** When every key of the located rows survives, every timestamp of the gap rows
      does. */
  lemma LocatedKeysCover(missing: seq<SolarRow>, sorted: seq<SolarRow>, latitude: real, longitude: real, rows: seq<MergedRow>)
    requires forall y :: y in missing ==> y in sorted
    requires KeepsEveryKey(Locate(sorted, latitude, longitude), {}, rows)
    ensures forall y :: y in missing ==> exists x :: x in rows && x.ts == y.ts
  {
    var located := Locate(sorted, latitude, longitude);
    forall y | y in missing ensures exists x :: x in rows && x.ts == y.ts {
      var i :| 0 <= i < |sorted| && sorted[i] == y;
      assert located[i] in located;
      var x :| x in rows && KeyOf(x) == KeyOf(located[i]);
    }
  }

  /** A row some gap kept lies in that gap's window. */
  lemma GapRowsInWindow(latitude: real, longitude: real, gap: Gap, offset: int, clock: int, fetch: Url -> Response)
    requires GapRows(latitude, longitude, gap, offset, clock, fetch).Ok?
    ensures forall x :: x in GapRows(latitude, longitude, gap, offset, clock, fetch).value ==>
      WindowStart(gap, offset) <= x.ts <= WindowEnd(gap, offset)
  {
  }

  /** The rows merged from the gaps: strictly increasing in `ts` (so no key
      repeats), at the requested point, each taken from some gap's window, and
      covering every timestamp some gap kept. */
  lemma MergedGapRows(latitude: real, longitude: real, gaps: seq<Gap>, offset: int, clock: int, fetch: Url -> Response)
    requires AllGapRows(latitude, longitude, gaps, offset, clock, fetch).Ok?
    ensures var rows := DropDuplicates(Locate(SortByTs(AllGapRows(latitude, longitude, gaps, offset, clock, fetch).value), latitude, longitude));
      (forall i, j :: 0 <= i < j < |rows| ==> rows[i].ts < rows[j].ts) &&
      (forall x :: x in rows ==> x.latitude == latitude && x.longitude == longitude) &&
      (forall x :: x in rows ==> (exists g :: (g in gaps &&
         WindowStart(g, offset) <= x.ts <= WindowEnd(g, offset) &&
         SolarRow(x.ts, x.ghi) in GapRows(latitude, longitude, g, offset, clock, fetch).value))) &&
      (forall g, y :: g in gaps && y in GapRows(latitude, longitude, g, offset, clock, fetch).value ==>
         exists x :: x in rows && x.ts == y.ts)
  {
    var missing := AllGapRows(latitude, longitude, gaps, offset, clock, fetch).value;
    var rows := DropDuplicates(Locate(SortByTs(missing), latitude, longitude));
    MergeSpec(missing, latitude, longitude);
    RowsFromGapWindows(latitude, longitude, gaps, offset, clock, fetch, missing, rows);
    GapRowsCovered(latitude, longitude, gaps, offset, clock, fetch, missing, rows);
  }

  /** Rows covering every timestamp of the gap rows cover every timestamp some gap
      kept. */
  lemma GapRowsCovered(latitude: real, longitude: real, gaps: seq<Gap>, offset: int, clock: int, fetch: Url -> Response,
                       missing: seq<SolarRow>, rows: seq<MergedRow>)
    requires AllGapRows(latitude, longitude, gaps, offset, clock, fetch) == Ok(missing)
    requires forall y :: y in missing ==> exists x :: x in rows && x.ts == y.ts
    ensures forall g, y :: g in gaps && y in GapRows(latitude, longitude, g, offset, clock, fetch).value ==>
      exists x :: x in rows && x.ts == y.ts
  {
    forall g, y | g in gaps && y in GapRows(latitude, longitude, g, offset, clock, fetch).value
      ensures exists x :: x in rows && x.ts == y.ts
    {
      assert y in missing;
    }
  }

  /** Rows carrying gap rows come from some gap's window. */
  lemma RowsFromGapWindows(latitude: real, longitude: real, gaps: seq<Gap>, offset: int, clock: int, fetch: Url -> Response,
                           missing: seq<SolarRow>, rows: seq<MergedRow>)
    requires AllGapRows(latitude, longitude, gaps, offset, clock, fetch) == Ok(missing)
    requires forall x :: x in rows ==> SolarRow(x.ts, x.ghi) in missing
    ensures forall x :: x in rows ==> (exists g :: (g in gaps &&
      WindowStart(g, offset) <= x.ts <= WindowEnd(g, offset) &&
      SolarRow(x.ts, x.ghi) in GapRows(latitude, longitude, g, offset, clock, fetch).value))
  {
    forall x | x in rows
      ensures exists g :: (g in gaps && WindowStart(g, offset) <= x.ts <= WindowEnd(g, offset) &&
        SolarRow(x.ts, x.ghi) in GapRows(latitude, longitude, g, offset, clock, fetch).value)
    {
      var g :| g in gaps && SolarRow(x.ts, x.ghi) in GapRows(latitude, longitude, g, offset, clock, fetch).value;
      GapRowsInWindow(latitude, longitude, g, offset, clock, fetch);
    }
  }

  /** `_get_historical_data_source` raises exactly when there is no gap or some gap
      fetched nothing; otherwise its rows are the merged gap rows under the labels
      latitude, longitude, ts, GHI (none when no gap kept a row). */
  lemma HistoricalDataSpec(latitude: real, longitude: real, gaps: seq<Gap>, offset: int, clock: int, fetch: Url -> Response)
    ensures var r := HistoricalData(latitude, longitude, gaps, offset, clock, fetch);
      (r.Failure? <==> gaps == [] || exists g :: g in gaps && GapRows(latitude, longitude, g, offset, clock, fetch).Failure?) &&
      (r.Ok? ==>
        r.value.rows == DropDuplicates(Locate(SortByTs(AllGapRows(latitude, longitude, gaps, offset, clock, fetch).value), latitude, longitude)) &&
        (r.value.rows != [] ==> r.value.columns == ["latitude", "longitude", "ts", "GHI"]))
  {
    MergedColumns();
    var all := AllGapRows(latitude, longitude, gaps, offset, clock, fetch);
    if gaps != [] && all.Ok? {
      var rows := DropDuplicates(Locate(SortByTs(all.value), latitude, longitude));
      assert HistoricalData(latitude, longitude, gaps, offset, clock, fetch) == Ok(Merged(ResultColumns(FrameColumns, rows == []), rows));
    }
  }

  // ---------------------------------------------------------------------------
  // The loops

  lemma {:induction false} AllGapRowsStep(latitude: real, longitude: real, gaps: seq<Gap>, g: nat, offset: int, clock: int, fetch: Url -> Response)
    requires g < |gaps|
    ensures AllGapRows(latitude, longitude, gaps[..g + 1], offset, clock, fetch) ==
      (match AllGapRows(latitude, longitude, gaps[..g], offset, clock, fetch)
       case Failure(e) => Failure(e)
       case Ok(previous) =>
         match GapRows(latitude, longitude, gaps[g], offset, clock, fetch)
         case Failure(e) => Failure(e)
         case Ok(rows) => Ok(previous + rows))
    ensures AllGapDays(gaps[..g + 1], offset) == AllGapDays(gaps[..g], offset) + GapDays(gaps[g], offset)
  {
    assert gaps[..g + 1][..g] == gaps[..g];
  }

  /** The outer loop's step when the gap kept rows. */
  lemma AllGapRowsAppend(latitude: real, longitude: real, gaps: seq<Gap>, g: nat, offset: int, clock: int, fetch: Url -> Response,
                         missing: seq<SolarRow>, kept: seq<SolarRow>)
    requires g < |gaps|
    requires AllGapRows(latitude, longitude, gaps[..g], offset, clock, fetch) == Ok(missing)
    requires GapRows(latitude, longitude, gaps[g], offset, clock, fetch) == Ok(kept)
    ensures AllGapRows(latitude, longitude, gaps[..g + 1], offset, clock, fetch) == Ok(missing + kept)
  {
    AllGapRowsStep(latitude, longitude, gaps, g, offset, clock, fetch);
  }

  /** Once a prefix of the gaps raises, so does the whole list. */
  lemma {:induction false} AllGapRowsPrefixFails(latitude: real, longitude: real, gaps: seq<Gap>, g: nat, offset: int, clock: int, fetch: Url -> Response)
    requires g <= |gaps|
    requires AllGapRows(latitude, longitude, gaps[..g], offset, clock, fetch).Failure?
    ensures AllGapRows(latitude, longitude, gaps, offset, clock, fetch).Failure?
  {
    var bad :| bad in gaps[..g] && GapRows(latitude, longitude, bad, offset, clock, fetch).Failure?;
    assert bad in gaps;
  }

  /** The requested days of a prefix of the gaps are a prefix of all requested days. */
  lemma {:induction false} AllGapDaysPrefix(gaps: seq<Gap>, g: nat, offset: int)
    requires g <= |gaps|
    ensures AllGapDays(gaps[..g], offset) <= AllGapDays(gaps, offset)
    decreases |gaps| - g
  {
    if g < |gaps| {
      AllGapDaysPrefix(gaps, g + 1, offset);
      AllGapRowsStepDays(gaps, g, offset);
    } else {
      assert gaps[..g] == gaps;
    }
  }

  lemma AllGapDaysStep(gaps: seq<Gap>, g: nat, offset: int)
    requires g < |gaps|
    ensures AllGapDays(gaps[..g + 1], offset) == AllGapDays(gaps[..g], offset) + GapDays(gaps[g], offset)
  {
    assert gaps[..g + 1][..g] == gaps[..g];
  }

  lemma AllGapRowsStepDays(gaps: seq<Gap>, g: nat, offset: int)
    requires g < |gaps|
    ensures AllGapDays(gaps[..g], offset) <= AllGapDays(gaps[..g + 1], offset)
  {
    AllGapDaysStep(gaps, g, offset);
  }

  /** The inner loop's step: fetching one more day appends its table. */
  /** One turn of the day loop keeps the fetched days and rows a prefix of the
      whole range's. */
  lemma FetchStep(latitude: real, longitude: real, day: Instant, end: Instant, clock: int, fetch: Url -> Response,
                  period: seq<SolarRow>, fetched: seq<Instant>, allRows: seq<SolarRow>, allDays: seq<Instant>)
    requires day.ts <= end.ts
    requires period + ConcatDays(latitude, longitude, DateRange(day, end), clock, fetch) == allRows
    requires fetched + DateRange(day, end) == allDays
    ensures (period + DayData(latitude, longitude, day, clock, fetch)) +
      ConcatDays(latitude, longitude, DateRange(Instant(day.ts + SecondsPerDay, day.offset), end), clock, fetch) == allRows
    ensures (fetched + [day]) + DateRange(Instant(day.ts + SecondsPerDay, day.offset), end) == allDays
  {
    var rest := DateRange(Instant(day.ts + SecondsPerDay, day.offset), end);
    assert DateRange(day, end) == [day] + rest;
    assert ([day] + rest)[1..] == rest;
    var rows, later := DayData(latitude, longitude, day, clock, fetch), ConcatDays(latitude, longitude, rest, clock, fetch);
    assert ConcatDays(latitude, longitude, DateRange(day, end), clock, fetch) == rows + later;
    assert period + (rows + later) == (period + rows) + later;
    assert fetched + ([day] + rest) == (fetched + [day]) + rest;
  }

  /** A gap that fetched something keeps the window of its sorted rows. */
  lemma GapRowsOfPeriod(latitude: real, longitude: real, gap: Gap, offset: int, clock: int, fetch: Url -> Response,
                        period: seq<SolarRow>, kept: seq<SolarRow>)
    requires period == ConcatDays(latitude, longitude, GapDays(gap, offset), clock, fetch) && period != []
    requires kept == Window(SortByTs(period), WindowStart(gap, offset), WindowEnd(gap, offset))
    ensures GapRows(latitude, longitude, gap, offset, clock, fetch) == Ok(kept)
  {
  }

  /** The inner loop of `_get_historical_data_source`: the day tables from `start`
      through `end`, concatenated, and the days requested, in order. */
  method FetchDays(latitude: real, longitude: real, start: Instant, end: Instant, clock: int, fetch: Url -> Response)
    returns (period: seq<SolarRow>, fetched: seq<Instant>)
    ensures period == ConcatDays(latitude, longitude, DateRange(start, end), clock, fetch)
    ensures fetched == DateRange(start, end)
  {
    var day := start;
    period, fetched := [], [];
    while day.ts <= end.ts
      invariant day.offset == start.offset
      invariant period + ConcatDays(latitude, longitude, DateRange(day, end), clock, fetch) ==
        ConcatDays(latitude, longitude, DateRange(start, end), clock, fetch)
      invariant fetched + DateRange(day, end) == DateRange(start, end)
      decreases end.ts - day.ts
    {
      var daily, _ := GetHistoricDataDay(latitude, longitude, day, clock, fetch);
      FetchStep(latitude, longitude, day, end, clock, fetch, period, fetched,
                ConcatDays(latitude, longitude, DateRange(start, end), clock, fetch), DateRange(start, end));
      fetched := fetched + [day];
      period := period + daily;
      day := Instant(day.ts + SecondsPerDay, day.offset);
    }
    assert DateRange(day, end) == [];
  }

  /** The body of the outer loop of `_get_historical_data_source` for one gap:
      the day tables from the loop start through the gap's last midnight,
      concatenated, sorted and cut to the gap's window; `fetched` lists the days
      requested, in order. */
  method CollectGap(latitude: real, longitude: real, gap: Gap, offset: int, clock: int, fetch: Url -> Response)
    returns (rows: Result<seq<SolarRow>>, fetched: seq<Instant>)
    ensures rows == GapRows(latitude, longitude, gap, offset, clock, fetch)
    ensures fetched == GapDays(gap, offset)
  {
    var day := FirstDay(gap, offset);
    var endMidnight := LocalMidnight(LocalDate(gap.end), offset);
    var period;
    period, fetched := FetchDays(latitude, longitude, day, endMidnight, clock, fetch);
    if period == [] {
      return Failure("KeyError: 'ts'"), fetched;
    }
    var kept := Window(SortByTs(period), WindowStart(gap, offset), WindowEnd(gap, offset));
    GapRowsOfPeriod(latitude, longitude, gap, offset, clock, fetch, period, kept);
    rows := Ok(kept);
  }

  /** Lines 82-92: the local midnight of the gap's first day, moved back a day when
      MeteoGalicia's 01:00 UTC start comes after it. */
  method FirstDay(gap: Gap, offset: int) returns (day: Instant)
    ensures day == LoopStart(gap, offset)
  {
    var iniMidnight := LocalMidnight(LocalDate(gap.ini), offset);
    var meteogaliciaStart := LocalDate(iniMidnight) * SecondsPerDay + SecondsPerHour;
    day := if meteogaliciaStart > iniMidnight.ts then Instant(iniMidnight.ts - SecondsPerDay, offset) else iniMidnight;
  }

  /** `_get_historical_data_source` as the loops run it; `requested` lists the
      days fetched, in order. */
  method GetHistoricalDataSource(latitude: real, longitude: real, gaps: seq<Gap>, offset: int, clock: int, fetch: Url -> Response)
    returns (result: Result<Merged>, requested: seq<Instant>)
    ensures result == HistoricalData(latitude, longitude, gaps, offset, clock, fetch)
    ensures requested <= AllGapDays(gaps, offset)
    ensures result.Ok? ==> requested == AllGapDays(gaps, offset)
  {
    var missing: seq<SolarRow> := [];
    requested := [];
    for g := 0 to |gaps|
      invariant AllGapRows(latitude, longitude, gaps[..g], offset, clock, fetch) == Ok(missing)
      invariant requested == AllGapDays(gaps[..g], offset)
    {
      var kept, fetched := CollectGap(latitude, longitude, gaps[g], offset, clock, fetch);
      AllGapDaysStep(gaps, g, offset);
      requested := requested + fetched;
      if kept.Failure? {
        AllGapRowsStep(latitude, longitude, gaps, g, offset, clock, fetch);
        AllGapRowsPrefixFails(latitude, longitude, gaps, g + 1, offset, clock, fetch);
        AllGapDaysPrefix(gaps, g + 1, offset);
        return Failure(kept.error), requested;
      }
      AllGapRowsAppend(latitude, longitude, gaps, g, offset, clock, fetch, missing, kept.value);
      missing := missing + kept.value;
    }
    assert gaps[..|gaps|] == gaps;
    if gaps == [] {
      return Failure("KeyError: 'ts'"), requested;
    }
    var rows := DropDuplicates(Locate(SortByTs(missing), latitude, longitude));
    result := Ok(Merged(ResultColumns(FrameColumns, rows == []), rows));
  }
}
