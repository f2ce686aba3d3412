/** The grouping of `_collect_raster` (src/beemeteo/sources/meteogalicia/__init__.py):
    cells of the downloaded raster are keyed by forecast time, time and the
    coordinates rounded to a tenth, and each group is replaced by the mean of its
    values. The download itself (`_get_historic_forecasting_raster`) is an input. */
module MeteoGaliciaRaster {
  import opened Wrappers
  import opened Text
  import opened Decimal

  // ---------------------------------------------------------------------------
  // The coordinate text

  /** Lines 59-63 for one coordinate: rounded to a tenth (ties to even), printed
      by `str`, and "-0.0" written "0.0". */
  function CoordText(x: real): string {
    var s := FormatFixed1(x);
    if s == "-0.0" then "0.0" else s
  }

  /** The text of a whole number of tenths `k`. */
  function TenthsText(k: int): string {
    DecimalString(k < 0, if k < 0 then -k else k)
  }

  /** Distinct numbers of tenths print differently, and each text reads back as
      its number. */
  lemma TenthsTextRoundTrip(k: int)
    ensures ParseNumber(TenthsText(k)) == Some(k as real / 10.0)
  {
    DecimalStringRoundTrip(k < 0, if k < 0 then -k else k);
  }

  /** The coordinate text depends only on the rounded coordinate: it is the text of
      `RoundTenths(x)`, never "-0.0". */
  lemma CoordTextIsTenths(x: real)
    ensures CoordText(x) == TenthsText(RoundTenths(x))
    ensures CoordText(x) != "-0.0"
  {
    var k := RoundTenths(x);
    var magnitude: nat := if k < 0 then -k else k;
    assert x >= 0.0 ==> k >= 0;
    assert x < 0.0 ==> k <= 0;
    assert NatToString(0) == "0";
    assert DecimalString(true, 0) == "-0.0";
    assert DecimalString(false, 0) == "0.0";
    if k < 0 {
      TenthsTextRoundTrip(k);
      TenthsTextRoundTrip(0);
      assert TenthsText(k) != "-0.0" by {
        DecimalStringRoundTrip(true, 0);
      }
    }
  }

  /** Two coordinates fall into the same group exactly when they round to the same
      tenth, and the text reads back as that tenth. */
  lemma CoordTextSameGroup(x: real, y: real)
    ensures CoordText(x) == CoordText(y) <==> RoundTenths(x) == RoundTenths(y)
    ensures ParseNumber(CoordText(x)) == Some(RoundTenths(x) as real / 10.0)
  {
    CoordTextIsTenths(x);
    CoordTextIsTenths(y);
    TenthsTextRoundTrip(RoundTenths(x));
    TenthsTextRoundTrip(RoundTenths(y));
  }

  // ---------------------------------------------------------------------------
  // Group keys and their order

  /** The group-by key of line 70. */
  datatype GroupKey = GroupKey(forecastingTimestamp: int, timestamp: int, latitude: string, longitude: string)

  /** Code-point order on text, strict. */
  predicate TextLess(a: string, b: string) {
    LessEq(a, b) && a != b
  }

  /** The order `groupby` sorts its keys in: field by field. */
  predicate KeyLess(a: GroupKey, b: GroupKey) {
    a.forecastingTimestamp < b.forecastingTimestamp ||
    (a.forecastingTimestamp == b.forecastingTimestamp &&
      (a.timestamp < b.timestamp ||
      (a.timestamp == b.timestamp &&
        (TextLess(a.latitude, b.latitude) ||
        (a.latitude == b.latitude && TextLess(a.longitude, b.longitude))))))
  }

  lemma TextLessTransitive(a: string, b: string, c: string)
    requires TextLess(a, b) && TextLess(b, c)
    ensures TextLess(a, c)
  {
    LessEqTransitive(a, b, c);
    if a == c {
      LessEqAntisymmetric(b, c);
    }
  }

  lemma TextLessTrichotomy(a: string, b: string)
    ensures a == b || TextLess(a, b) || TextLess(b, a)
  {
    LessEqTotal(a, b);
  }

  lemma KeyLessTransitive(a: GroupKey, b: GroupKey, c: GroupKey)
    requires KeyLess(a, b) && KeyLess(b, c)
    ensures KeyLess(a, c)
  {
    if TextLess(a.latitude, b.latitude) && TextLess(b.latitude, c.latitude) {
      TextLessTransitive(a.latitude, b.latitude, c.latitude);
    }
    if TextLess(a.longitude, b.longitude) && TextLess(b.longitude, c.longitude) {
      TextLessTransitive(a.longitude, b.longitude, c.longitude);
    }
  }

  /** Any two keys are equal or ordered one way, and never both ways. */
  lemma KeyLessTrichotomy(a: GroupKey, b: GroupKey)
    ensures a == b || KeyLess(a, b) || KeyLess(b, a)
    ensures !(KeyLess(a, b) && KeyLess(b, a))
  {
    TextLessTrichotomy(a.latitude, b.latitude);
    TextLessTrichotomy(a.longitude, b.longitude);
    if KeyLess(a, b) && KeyLess(b, a) {
      KeyLessTransitive(a, b, a);
    }
  }

  predicate Increasing(keys: seq<GroupKey>) {
    forall i, j :: 0 <= i < j < |keys| ==> KeyLess(keys[i], keys[j])
  }

  /** Adds `k` to a strictly increasing list of keys, unless it is there already. */
  function InsertKey(k: GroupKey, keys: seq<GroupKey>): (r: seq<GroupKey>)
    requires Increasing(keys)
    ensures Increasing(r)
    ensures forall x :: x in r <==> x == k || x in keys
  {
    if keys == [] then [k]
    else if k == keys[0] then keys
    else if KeyLess(k, keys[0]) then
      InsertKeyAtFront(k, keys);
      [k] + keys
    else
      var rest := InsertKey(k, keys[1..]);
      assert forall x :: x in keys <==> x == keys[0] || x in keys[1..];
      InsertKeyBehind(k, keys, rest);
      [keys[0]] + rest
  }

  lemma InsertKeyAtFront(k: GroupKey, keys: seq<GroupKey>)
    requires Increasing(keys) && keys != [] && KeyLess(k, keys[0])
    ensures Increasing([k] + keys)
  {
    forall j | 0 < j < |keys| ensures KeyLess(k, keys[j]) {
      KeyLessTransitive(k, keys[0], keys[j]);
    }
  }

  lemma InsertKeyBehind(k: GroupKey, keys: seq<GroupKey>, rest: seq<GroupKey>)
    requires Increasing(keys) && keys != [] && k != keys[0] && !KeyLess(k, keys[0])
    requires Increasing(rest)
    requires forall x :: x in rest ==> x == k || x in keys[1..]
    ensures Increasing([keys[0]] + rest)
  {
    KeyLessTrichotomy(k, keys[0]);
    forall j | 0 <= j < |rest| ensures KeyLess(keys[0], rest[j]) {
      assert rest[j] in rest;
      if rest[j] != k {
        var m :| 0 <= m < |keys[1..]| && keys[1..][m] == rest[j];
        assert keys[m + 1] == rest[j];
      }
    }
  }

  // ---------------------------------------------------------------------------
  // Cells and groups

  /** One row of the raster frame after the columns of line 51 are dropped: the two
      times as integer seconds (lines 53-55), the coordinates, and the values of
      the mean columns in `MeanColumns` order, NaN being `None`. */
  datatype RasterCell = RasterCell(forecastingTimestamp: int, timestamp: int, latitude: real, longitude: real, values: seq<Option<real>>)

  /** The downloaded frame: its column labels and its rows. A failed download is
      the frame with no column at all. */
  datatype RasterFrame = RasterFrame(columns: seq<string>, cells: seq<RasterCell>)

  const DroppedColumns: seq<string> := ["Lambert_Conformal", "windSpeed", "windDirection"]

  const KeyColumns: seq<string> := ["forecasting_timestamp", "timestamp", "latitude", "longitude"]

  /** Lines 65-66. */
  const MeanColumns: seq<string> :=
    ["totalPrecipitation", "relativeHumidity", "GHI", "airTemperature", "atmosphericPressure",
     "cloudCloverHighLevels", "cloudCloverMidLevels", "cloudCloverLowLevels", "visibility", "u", "v"]

  function KeyOfCell(c: RasterCell): GroupKey {
    GroupKey(c.forecastingTimestamp, c.timestamp, CoordText(c.latitude), CoordText(c.longitude))
  }

  /** The keys of the cells, each once, in `groupby` order. */
  function GroupKeys(cells: seq<RasterCell>): (keys: seq<GroupKey>)
    ensures Increasing(keys)
    ensures forall k :: k in keys <==> exists c :: c in cells && KeyOfCell(c) == k
  {
    if cells == [] then []
    else
      var n := |cells| - 1;
      assert forall c :: c in cells <==> c in cells[..n] || c == cells[n] by {
        assert cells == cells[..n] + [cells[n]];
      }
      InsertKey(KeyOfCell(cells[n]), GroupKeys(cells[..n]))
  }

  /** The cells of one group, in frame order. */
  function Group(cells: seq<RasterCell>, k: GroupKey): (g: seq<RasterCell>)
    ensures forall c :: c in g <==> c in cells && KeyOfCell(c) == k
  {
    if cells == [] then []
    else
      var rest := Group(cells[1..], k);
      assert forall c :: c in cells <==> c == cells[0] || c in cells[1..];
      if KeyOfCell(cells[0]) == k then [cells[0]] + rest else rest
  }

  /** The values a group has in mean column `j`, NaN skipped, in frame order. */
  function Present(group: seq<RasterCell>, j: nat): (vals: seq<real>)
    ensures forall v :: v in vals <==> exists c :: c in group && j < |c.values| && c.values[j] == Some(v)
  {
    if group == [] then []
    else
      var c := group[0];
      var rest := Present(group[1..], j);
      assert forall d :: d in group <==> d == c || d in group[1..];
      if j < |c.values| && c.values[j].Some? then [c.values[j].value] + rest else rest
  }

  /** Column `j` of the frame restricted to the cells of key `k`: a cell of another
      group, or one without a value there, reads as NaN. */
  function KeyColumn(cells: seq<RasterCell>, k: GroupKey, j: nat): seq<Option<real>> {
    seq(|cells|, i requires 0 <= i < |cells| =>
      if KeyOfCell(cells[i]) == k && j < |cells[i].values| then cells[i].values[j] else None)
  }

  function Somes(vals: seq<real>): seq<Option<real>> {
    seq(|vals|, m requires 0 <= m < |vals| => Some(vals[m]))
  }

  /** The values averaged for key `k` in column `j` are, counted with their
      repetitions, exactly the non-NaN values the cells of that key hold there. */
  lemma {:induction false} GroupValues(cells: seq<RasterCell>, k: GroupKey, j: nat)
    ensures multiset(Somes(Present(Group(cells, k), j))) == multiset(KeyColumn(cells, k, j))[None := 0]
  {
    if cells != [] {
      var c := cells[0];
      GroupValues(cells[1..], k, j);
      var x := if KeyOfCell(c) == k && j < |c.values| then c.values[j] else None;
      assert KeyColumn(cells, k, j) == [x] + KeyColumn(cells[1..], k, j);
      var rest := Present(Group(cells[1..], k), j);
      GroupHead(cells, k, j);
      SomesCons(x, rest);
      DropNaN(x, KeyColumn(cells[1..], k, j));
    }
  }

  /** The first cell adds its value to the averaged values when it belongs to the
      group and has one. */
  lemma GroupHead(cells: seq<RasterCell>, k: GroupKey, j: nat)
    requires cells != []
    ensures var c := cells[0];
      Present(Group(cells, k), j) ==
        (if KeyOfCell(c) == k && j < |c.values| && c.values[j].Some? then [c.values[j].value] else []) +
        Present(Group(cells[1..], k), j)
  {
    var g := Group(cells, k);
    if KeyOfCell(cells[0]) == k {
      assert g[0] == cells[0] && g[1..] == Group(cells[1..], k);
    }
  }

  lemma SomesCons(x: Option<real>, rest: seq<real>)
    ensures Somes((if x.Some? then [x.value] else []) + rest) == (if x.Some? then [x] else []) + Somes(rest)
  {
  }

  lemma DropNaN(x: Option<real>, xs: seq<Option<real>>)
    ensures multiset([x] + xs)[None := 0] == multiset(if x.Some? then [x] else []) + multiset(xs)[None := 0]
  {
    var lhs := multiset([x] + xs)[None := 0];
    var rhs := multiset(if x.Some? then [x] else []) + multiset(xs)[None := 0];
    assert multiset([x] + xs) == multiset{x} + multiset(xs);
    forall y ensures lhs[y] == rhs[y] {
    }
  }

  /** Two lists whose optional wrappings hold the same values hold the same values. */
  lemma SomesMultiset(a: seq<real>, b: seq<real>)
    requires multiset(Somes(a)) == multiset(Somes(b))
    ensures multiset(a) == multiset(b)
  {
    forall v ensures multiset(a)[v] == multiset(b)[v] {
      SomesCount(a, v);
      SomesCount(b, v);
    }
  }

  lemma {:induction false} SomesCount(a: seq<real>, v: real)
    ensures multiset(Somes(a))[Some(v)] == multiset(a)[v]
  {
    if a != [] {
      SomesCount(a[1..], v);
      assert a == [a[0]] + a[1..];
      assert Somes(a) == [Some(a[0])] + Somes(a[1..]);
    }
  }

  function Sum(vals: seq<real>): real {
    if vals == [] then 0.0 else vals[0] + Sum(vals[1..])
  }

  /** The sum does not depend on the order of the values. */
  lemma {:induction false} SumPermutation(a: seq<real>, b: seq<real>)
    requires multiset(a) == multiset(b)
    ensures Sum(a) == Sum(b)
    decreases |a|
  {
    if a == [] {
      assert |b| == |multiset(b)| == 0;
    } else {
      assert a[0] in multiset(b);
      var i :| 0 <= i < |b| && b[i] == a[0];
      var b' := b[..i] + b[i + 1..];
      assert b == b[..i] + [b[i]] + b[i + 1..];
      assert multiset(a) == multiset{a[0]} + multiset(a[1..]) by { assert a == [a[0]] + a[1..]; }
      assert multiset(b) == multiset(b[..i]) + multiset{b[i]} + multiset(b[i + 1..]);
      assert multiset(b') == multiset(b[..i]) + multiset(b[i + 1..]);
      assert multiset(a[1..]) == multiset(a) - multiset{a[0]};
      assert multiset(b') == multiset(b) - multiset{b[i]};
      SumPermutation(a[1..], b');
      SumRemove(b, i);
    }
  }

  /** Taking one value out of the list takes it out of the sum. */
  lemma {:induction false} SumRemove(b: seq<real>, i: nat)
    requires i < |b|
    ensures Sum(b) == b[i] + Sum(b[..i] + b[i + 1..])
  {
    if i == 0 {
      assert b[..0] + b[1..] == b[1..];
    } else {
      var t := b[1..];
      SumRemove(t, i - 1);
      var rest := t[..i - 1] + t[i..];
      assert b[..i] + b[i + 1..] == [b[0]] + rest;
      assert ([b[0]] + rest)[1..] == rest;
    }
  }

  /** `mean` with NaN skipped: NaN when nothing is left. */
  function Mean(vals: seq<real>): Option<real> {
    if vals == [] then None else Some(Sum(vals) / |vals| as real)
  }

  /** The sum of values within bounds lies within the bounds times the count. */
  lemma {:induction false} SumBounds(vals: seq<real>, lo: real, hi: real)
    requires forall v :: v in vals ==> lo <= v <= hi
    ensures |vals| as real * lo <= Sum(vals) <= |vals| as real * hi
  {
    if vals != [] {
      assert forall v :: v in vals[1..] ==> v in vals;
      SumBounds(vals[1..], lo, hi);
      assert vals[0] in vals;
      SumStep(|vals[1..]| as real, Sum(vals[1..]), vals[0], |vals| as real, Sum(vals), lo, hi);
    }
  }

  lemma SumStep(n: real, sum: real, x: real, count: real, total: real, lo: real, hi: real)
    requires n * lo <= sum <= n * hi && lo <= x <= hi
    requires count == n + 1.0 && total == x + sum
    ensures count * lo <= total <= count * hi
  {
    assert (n + 1.0) * lo == n * lo + lo;
    assert (n + 1.0) * hi == n * hi + hi;
  }

  /** The mean lies between any bounds of the values: it is at least the smallest
      and at most the largest, and equals the value when all are equal. */
  lemma MeanBounds(vals: seq<real>, lo: real, hi: real)
    requires vals != []
    requires forall v :: v in vals ==> lo <= v <= hi
    ensures Mean(vals).Some? && lo <= Mean(vals).value <= hi
  {
    SumBounds(vals, lo, hi);
    DivBounds(Sum(vals), |vals| as real, lo, hi);
  }

  lemma DivBounds(sum: real, n: real, lo: real, hi: real)
    requires n > 0.0 && n * lo <= sum <= n * hi
    ensures lo <= sum / n <= hi
  {
    var m := sum / n;
    assert m * n == sum;
    assert (m - lo) * n >= 0.0;
    assert (hi - m) * n >= 0.0;
  }

  /** One output row of line 70-72: the key, then the mean of each mean column over
      the group. */
  datatype AggregatedRow = AggregatedRow(forecastingTimestamp: int, timestamp: int, latitude: string, longitude: string,
                                         values: seq<Option<real>>)

  function RowKey(r: AggregatedRow): GroupKey {
    GroupKey(r.forecastingTimestamp, r.timestamp, r.latitude, r.longitude)
  }

  function Aggregated(cells: seq<RasterCell>, k: GroupKey): (row: AggregatedRow)
    ensures RowKey(row) == k && |row.values| == |MeanColumns|
  {
    var group := Group(cells, k);
    AggregatedRow(k.forecastingTimestamp, k.timestamp, k.latitude, k.longitude,
                  seq(|MeanColumns|, j requires 0 <= j < |MeanColumns| => Mean(Present(group, j))))
  }

  function Aggregate(cells: seq<RasterCell>): (rows: seq<AggregatedRow>)
    ensures |rows| == |GroupKeys(cells)|
    ensures forall i :: 0 <= i < |rows| ==> rows[i] == Aggregated(cells, GroupKeys(cells)[i])
  {
    var keys := GroupKeys(cells);
    seq(|keys|, i requires 0 <= i < |keys| => Aggregated(cells, keys[i]))
  }

  /** `_collect_raster` on a downloaded frame: dropping a column the frame lacks
      (as in the column-less frame of a failed download), or grouping or averaging
      by one, raises `KeyError`. */
  function CollectRaster(frame: RasterFrame): (r: Result<seq<AggregatedRow>>)
    ensures r.Failure? <==> exists c :: c in DroppedColumns + KeyColumns + MeanColumns && c !in frame.columns
  {
    assert forall c :: c in DroppedColumns + KeyColumns + MeanColumns <==> c in DroppedColumns || c in KeyColumns + MeanColumns;
    if exists c :: c in DroppedColumns && c !in frame.columns then Failure("KeyError: not found in axis")
    else if exists c :: c in KeyColumns + MeanColumns && c !in frame.columns then Failure("KeyError")
    else Ok(Aggregate(frame.cells))
  }

  /** The raster raises exactly when a column it drops, groups by or averages is
      missing. Otherwise every key occurs once, in increasing order, every cell's
      key has a row and every row's key is some cell's. */
  lemma CollectRasterKeys(frame: RasterFrame)
    ensures var r := CollectRaster(frame);
      (r.Failure? <==> exists c :: c in DroppedColumns + KeyColumns + MeanColumns && c !in frame.columns) &&
      (r.Ok? ==> (forall i, j :: 0 <= i < j < |r.value| ==>
        KeyLess(RowKey(r.value[i]), RowKey(r.value[j])) && RowKey(r.value[i]) != RowKey(r.value[j]))) &&
      (r.Ok? ==> forall c :: c in frame.cells ==> exists row :: row in r.value && RowKey(row) == KeyOfCell(c)) &&
      (r.Ok? ==> forall row :: row in r.value ==> exists c :: c in frame.cells && KeyOfCell(c) == RowKey(row))
  {
    assert forall c :: c in DroppedColumns + KeyColumns + MeanColumns <==> c in DroppedColumns || c in KeyColumns + MeanColumns;
    AggregateOrdered(frame.cells);
    AggregateCovers(frame.cells);
  }

  /** The rows come out in increasing key order, so no key twice. */
  lemma AggregateOrdered(cells: seq<RasterCell>)
    ensures var rows := Aggregate(cells);
      forall i, j :: 0 <= i < j < |rows| ==> KeyLess(RowKey(rows[i]), RowKey(rows[j])) && RowKey(rows[i]) != RowKey(rows[j])
  {
    var rows, keys := Aggregate(cells), GroupKeys(cells);
    assert forall i :: 0 <= i < |rows| ==> RowKey(rows[i]) == keys[i];
    forall i, j | 0 <= i < j < |rows| ensures RowKey(rows[i]) != RowKey(rows[j]) {
      KeyLessTrichotomy(keys[i], keys[j]);
    }
  }

  /** The row keys are exactly the keys of the cells. */
  lemma AggregateCovers(cells: seq<RasterCell>)
    ensures var rows := Aggregate(cells);
      (forall c :: c in cells ==> exists row :: row in rows && RowKey(row) == KeyOfCell(c)) &&
      (forall row :: row in rows ==> exists c :: c in cells && KeyOfCell(c) == RowKey(row))
  {
    var rows, keys := Aggregate(cells), GroupKeys(cells);
    forall c | c in cells ensures exists row :: row in rows && RowKey(row) == KeyOfCell(c) {
      assert KeyOfCell(c) in keys;
      var i :| 0 <= i < |keys| && keys[i] == KeyOfCell(c);
      assert RowKey(rows[i]) == keys[i] && rows[i] in rows;
    }
    forall row | row in rows ensures exists c :: c in cells && KeyOfCell(c) == RowKey(row) {
      var i :| 0 <= i < |rows| && rows[i] == row;
      assert RowKey(rows[i]) == keys[i] && keys[i] in keys;
    }
  }

  /** Each aggregated value is the mean over its group's cells: NaN exactly when no
      cell of the group has a value in that column, otherwise between any bounds of
      the group's values in that column. */
  lemma CollectRasterMeans(frame: RasterFrame, row: AggregatedRow, j: nat, lo: real, hi: real)
    requires CollectRaster(frame).Ok? && row in CollectRaster(frame).value && j < |MeanColumns|
    ensures |row.values| == |MeanColumns|
    ensures row.values[j].None? <==>
      forall c :: c in frame.cells && KeyOfCell(c) == RowKey(row) ==> !(j < |c.values| && c.values[j].Some?)
    ensures (forall c :: c in frame.cells && KeyOfCell(c) == RowKey(row) && j < |c.values| && c.values[j].Some? ==>
               lo <= c.values[j].value <= hi) && row.values[j].Some? ==>
      lo <= row.values[j].value <= hi
  {
    var rows := CollectRaster(frame).value;
    var i :| 0 <= i < |rows| && rows[i] == row;
    assert row == Aggregated(frame.cells, RowKey(row));
    AggregatedMean(frame.cells, RowKey(row), j, lo, hi);
  }

  /** Column `j` of the row of key `k`: NaN exactly when no cell of the group has a
      value there, and otherwise within any bounds of those values. */
  lemma AggregatedMean(cells: seq<RasterCell>, k: GroupKey, j: nat, lo: real, hi: real)
    requires j < |MeanColumns|
    ensures Aggregated(cells, k).values[j].None? <==>
      forall c :: c in cells && KeyOfCell(c) == k ==> !(j < |c.values| && c.values[j].Some?)
    ensures (forall c :: c in cells && KeyOfCell(c) == k && j < |c.values| && c.values[j].Some? ==>
               lo <= c.values[j].value <= hi) && Aggregated(cells, k).values[j].Some? ==>
      lo <= Aggregated(cells, k).values[j].value <= hi
  {
    var group := Group(cells, k);
    var vals := Present(group, j);
    assert Aggregated(cells, k).values[j] == Mean(vals);
    if vals != [] {
      assert vals[0] in vals;
      if forall c :: c in cells && KeyOfCell(c) == k && j < |c.values| && c.values[j].Some? ==> lo <= c.values[j].value <= hi {
        MeanBounds(vals, lo, hi);
      }
    }
  }

  /** Column `j` of the row of key `k` is the mean of the values the cells of that
      key hold in column `j`, NaN skipped, listed in any order. */
  lemma AggregatedIsMean(cells: seq<RasterCell>, k: GroupKey, j: nat, vals: seq<real>)
    requires j < |MeanColumns|
    requires multiset(Somes(vals)) == multiset(KeyColumn(cells, k, j))[None := 0]
    ensures Aggregated(cells, k).values[j] == Mean(vals)
  {
    var present := Present(Group(cells, k), j);
    GroupValues(cells, k, j);
    SomesMultiset(present, vals);
    SumPermutation(present, vals);
    assert |present| == |multiset(present)| == |multiset(vals)| == |vals|;
    assert Aggregated(cells, k).values[j] == Mean(present);
  }

  /** Every output value of `_collect_raster` is the mean of its group's non-NaN
      values in that column, however they are listed. */
  lemma CollectRasterMeanOf(frame: RasterFrame, row: AggregatedRow, j: nat, vals: seq<real>)
    requires CollectRaster(frame).Ok? && row in CollectRaster(frame).value && j < |MeanColumns|
    requires multiset(Somes(vals)) == multiset(KeyColumn(frame.cells, RowKey(row), j))[None := 0]
    ensures row.values[j] == Mean(vals)
  {
    var rows := CollectRaster(frame).value;
    var i :| 0 <= i < |rows| && rows[i] == row;
    assert row == Aggregated(frame.cells, RowKey(row));
    AggregatedIsMean(frame.cells, RowKey(row), j, vals);
  }
}
