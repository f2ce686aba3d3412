/** The month-by-month download loop of `get_hourly_historical_weather_from_ERA5Land`
    and the GRIB file name it writes (src/beemeteo/sources/era5/utils.py). The CDS
    client is not called: the loop returns the retrieval requests it would make. */
module Era5Download {
  import opened Wrappers
  import opened Text
  import Era5Variables

  // ---------------------------------------------------------------------------
  // Bounding boxes and file names

  /** A bounding-box coordinate as the caller passes it: an int such as `90`, or a
      float held as the text Python's `str` prints for it, split into its sign, its
      whole part and its fraction digits: `40.5` is `Fraction(false, 40, "5")` and
      `-2.25` is `Fraction(true, 2, "25")`. */
  datatype CoordForm = Whole(degrees: int) | Fraction(negative: bool, whole: nat, digits: string)

  /** The texts `str` prints for a float without an exponent: at least one
      fraction digit, no trailing zero after the first, a whole part below 1e16
      and no magnitude below 1e-4 (`str` writes those with an exponent). */
  predicate IsStrOfFloat(c: CoordForm) {
    c.Fraction? ==>
      |c.digits| >= 1 && AllDigits(c.digits) &&
      (|c.digits| == 1 || c.digits[|c.digits| - 1] != '0') &&
      c.whole < Pow10(16) &&
      !(c.whole == 0 && |c.digits| > 4 && c.digits[..4] == "0000")
  }

  type Coord = c: CoordForm | IsStrOfFloat(c) witness Whole(0)

  function Value(c: Coord): real {
    match c
    case Whole(d) => d as real
    case Fraction(negative, w, digits) =>
      var v := w as real + Scaled(DigitsValue(digits), |digits|);
      if negative then -v else v
  }

  /** Python's `str(c)`: `str(90) == "90"`, `str(40.5) == "40.5"`, `str(-3.0) == "-3.0"`,
      `str(2.25) == "2.25"`. */
  function CoordString(c: Coord): string {
    match c
    case Whole(d) => IntToString(d)
    case Fraction(negative, w, digits) => DecimalText(negative, w, digits)
  }

  /** `float(str(c))` gives the coordinate back, and the text holds no underscore. */
  lemma CoordStringRoundTrip(c: Coord)
    ensures ParseNumber(CoordString(c)) == Some(Value(c))
    ensures '_' !in CoordString(c)
  {
    match c
    case Whole(d) =>
      IntToStringRoundTrip(d);
      DigitsNoPoint(NatToString(if d < 0 then -d else d));
    case Fraction(negative, w, digits) =>
      DecimalTextRoundTrip(negative, w, digits);
  }

  /** Index of the element Python's `min` returns: the first of the smallest. */
  function ArgMin<T>(s: seq<T>, key: T -> real): (k: nat)
    requires |s| > 0
    ensures k < |s|
    ensures forall j :: 0 <= j < |s| ==> key(s[k]) <= key(s[j])
    ensures forall j :: 0 <= j < k ==> key(s[k]) < key(s[j])
  {
    if |s| == 1 then 0
    else
      var k := ArgMin(s[..|s| - 1], key);
      if key(s[|s| - 1]) < key(s[k]) then |s| - 1 else k
  }

  /** Index of the element Python's `max` returns: the first of the largest. */
  function ArgMax<T>(s: seq<T>, key: T -> real): (k: nat)
    requires |s| > 0
    ensures k < |s|
    ensures forall j :: 0 <= j < |s| ==> key(s[j]) <= key(s[k])
    ensures forall j :: 0 <= j < k ==> key(s[j]) < key(s[k])
  {
    if |s| == 1 then 0
    else
      var k := ArgMax(s[..|s| - 1], key);
      if key(s[|s| - 1]) > key(s[k]) then |s| - 1 else k
  }

  /** The area of a request: upper-left and lower-right corners, in the order the
      file name and the CDS `area` list give them. */
  datatype BoundingBox = BoundingBox(maxLat: Coord, minLon: Coord, minLat: Coord, maxLon: Coord)

  function BoxOf(latRange: seq<Coord>, lonRange: seq<Coord>): (box: BoundingBox)
    requires |latRange| > 0 && |lonRange| > 0
    ensures Value(box.minLat) <= Value(box.maxLat) && Value(box.minLon) <= Value(box.maxLon)
    ensures forall c :: c in latRange ==> Value(box.minLat) <= Value(c) <= Value(box.maxLat)
    ensures forall c :: c in lonRange ==> Value(box.minLon) <= Value(c) <= Value(box.maxLon)
    ensures box.maxLat in latRange && box.minLat in latRange
    ensures box.minLon in lonRange && box.maxLon in lonRange
  {
    BoundingBox(
      latRange[ArgMax(latRange, Value)], lonRange[ArgMin(lonRange, Value)],
      latRange[ArgMin(latRange, Value)], lonRange[ArgMax(lonRange, Value)])
  }

  /** The five underscore-separated fields of a file name's stem. */
  function GribFields(year: nat, month: nat, box: BoundingBox): seq<string> {
    [ NatToString(year) + ZeroPad2(month),
      CoordString(box.maxLat), CoordString(box.minLon),
      CoordString(box.minLat), CoordString(box.maxLon) ]
  }

  /** `f'{year}{month:02}_{maxLat}_{minLon}_{minLat}_{maxLon}'`. */
  function GribStem(year: nat, month: nat, box: BoundingBox): string {
    Join(GribFields(year, month, box), '_')
  }

  /** The file name, without the directory. */
  function GribName(year: nat, month: nat, box: BoundingBox): (name: string)
    ensures EndsWith(name, ".grib")
  {
    GribStem(year, month, box) + ".grib"
  }

  function GribPath(dataDir: string, year: nat, month: nat, box: BoundingBox): string {
    dataDir + "/" + GribName(year, month, box)
  }

  /** Splitting the stem at underscores gives the five fields back. */
  lemma GribStemSplits(year: nat, month: nat, box: BoundingBox)
    ensures Split(GribStem(year, month, box), '_') == GribFields(year, month, box)
  {
    var fields := GribFields(year, month, box);
    DigitsValueAppend(NatToString(year), ZeroPad2(month));
    DigitsNoPoint(fields[0]);
    CoordStringRoundTrip(box.maxLat);
    CoordStringRoundTrip(box.minLon);
    CoordStringRoundTrip(box.minLat);
    CoordStringRoundTrip(box.maxLon);
    SplitJoin(fields, '_');
  }

  /** The first field reads back as the year-month number `yyyymm`. */
  lemma YearMonthFieldValue(year: nat, month: nat)
    requires month < 100
    ensures AllDigits(NatToString(year) + ZeroPad2(month))
    ensures DigitsValue(NatToString(year) + ZeroPad2(month)) == year * 100 + month
  {
    DigitsValueAppend(NatToString(year), ZeroPad2(month));
    NatToStringValue(year);
    ZeroPad2Value(month);
    assert Pow10(2) == 100;
  }

  /** Two months of one box share a file only when they are the same month. */
  lemma GribPathInjective(dataDir: string, y1: nat, m1: nat, y2: nat, m2: nat, box: BoundingBox)
    requires m1 < 100 && m2 < 100
    requires GribPath(dataDir, y1, m1, box) == GribPath(dataDir, y2, m2, box)
    ensures y1 * 100 + m1 == y2 * 100 + m2
  {
    var p1, p2 := GribPath(dataDir, y1, m1, box), GribPath(dataDir, y2, m2, box);
    var n1, n2 := GribName(y1, m1, box), GribName(y2, m2, box);
    assert n1 == p1[|dataDir| + 1..] && n2 == p2[|dataDir| + 1..];
    var s1, s2 := GribStem(y1, m1, box), GribStem(y2, m2, box);
    assert s1 == n1[..|n1| - 5] && s2 == n2[..|n2| - 5];
    GribStemSplits(y1, m1, box);
    GribStemSplits(y2, m2, box);
    YearMonthFieldValue(y1, m1);
    YearMonthFieldValue(y2, m2);
    assert GribFields(y1, m1, box)[0] == GribFields(y2, m2, box)[0];
  }

  // ---------------------------------------------------------------------------
  // The year-month loop

  /** A year-month `yyyymm` with six digits, the form the loop reads by slicing
      `str(ym)[0:4]` and `str(ym)[4:6]`; for it those slices are `ym / 100` and
      `ym % 100`. */
  predicate SixDigits(ym: int) {
    100000 <= ym <= 999999
  }

  /** The loop's step: `month += 1`, rolling over to January of the next year once
      it passes 12. */
  function NextMonth(ym: nat): (next: nat)
    ensures next > ym
    ensures 1 <= next % 100 <= 12
    ensures ym % 100 < 12 ==> next == ym + 1
    ensures ym % 100 >= 12 ==> next == (ym / 100 + 1) * 100 + 1
  {
    var year, month := ym / 100, ym % 100 + 1;
    if month > 12 then (year + 1) * 100 + 1 else year * 100 + month
  }

  /** The year-months the loop visits, from `ym` while it does not pass `last`. */
  function MonthsFrom(ym: nat, last: int): (months: seq<nat>)
    ensures months == [] <==> ym > last
    ensures months != [] ==> months[0] == ym
    decreases last - ym
  {
    if ym > last then [] else [ym] + MonthsFrom(NextMonth(ym), last)
  }

  /** The visited year-months rise strictly (so none is visited twice) and stay
      between the first and the last. */
  lemma {:induction false} MonthsFromAscending(ym: nat, last: int)
    ensures forall i :: 0 <= i < |MonthsFrom(ym, last)| ==> ym <= MonthsFrom(ym, last)[i] <= last
    ensures forall i, j :: 0 <= i < j < |MonthsFrom(ym, last)| ==> MonthsFrom(ym, last)[i] < MonthsFrom(ym, last)[j]
    decreases last - ym
  {
    if ym <= last {
      MonthsFromAscending(NextMonth(ym), last);
    }
  }

  /** The loop starts at the first year-month, and every later one it visits has
      a month from 1 to 12. */
  lemma {:induction false} MonthsFromValid(ym: nat, last: int)
    ensures ym <= last ==> |MonthsFrom(ym, last)| > 0 && MonthsFrom(ym, last)[0] == ym
    ensures forall i :: 1 <= i < |MonthsFrom(ym, last)| ==> 1 <= MonthsFrom(ym, last)[i] % 100 <= 12
    decreases last - ym
  {
    if ym <= last {
      MonthsFromValid(NextMonth(ym), last);
    }
  }

  /** Every calendar year-month between the first and the last is visited. */
  lemma {:induction false} MonthsFromComplete(ym: nat, last: int, target: nat)
    requires ym <= target <= last && 1 <= target % 100 <= 12
    ensures target in MonthsFrom(ym, last)
    decreases last - ym
  {
    if target != ym {
      assert NextMonth(ym) <= target by {
        if ym % 100 >= 12 {
          assert target / 100 > ym / 100;
        }
      }
      MonthsFromComplete(NextMonth(ym), last, target);
    }
  }

  // ---------------------------------------------------------------------------
  // Retrieval requests

  /** One `c.retrieve('reanalysis-era5-land', {...}, target)` call: every variable's
      long name, one month's 31 days and 24 hours, the area, GRIB format. */
  datatype Retrieval = Retrieval(variables: seq<string>, year: nat, month: nat, area: BoundingBox, target: string)

  function RequestFor(dataDir: string, ym: nat, box: BoundingBox): Retrieval {
    Retrieval(Era5Variables.LongNames(Era5Variables.Era5LandVariables()), ym / 100, ym % 100, box,
              GribPath(dataDir, ym / 100, ym % 100, box))
  }

  /** The requests for the visited year-months, skipping each month whose file is
      already in the archive. */
  function Retrievals(dataDir: string, yms: seq<nat>, box: BoundingBox, existing: set<string>): (rs: seq<Retrieval>)
    ensures |rs| <= |yms|
    ensures forall r :: r in rs ==> r.target !in existing
    ensures forall r :: r in rs ==> exists ym :: ym in yms && r == RequestFor(dataDir, ym, box)
    ensures forall ym :: ym in yms && RequestFor(dataDir, ym, box).target !in existing ==> RequestFor(dataDir, ym, box) in rs
  {
    if yms == [] then []
    else
      var prefix := yms[..|yms| - 1];
      var ym := yms[|yms| - 1];
      assert forall y :: y in yms <==> y in prefix || y == ym by { assert yms == prefix + [ym]; }
      var r := RequestFor(dataDir, ym, box);
      Retrievals(dataDir, prefix, box, existing) + (if r.target in existing then [] else [r])
  }

  /** A month whose file already exists triggers no retrieval. */
  lemma ExistingFileNotRetrieved(dataDir: string, yms: seq<nat>, box: BoundingBox, existing: set<string>, ym: nat)
    requires GribPath(dataDir, ym / 100, ym % 100, box) in existing
    ensures forall r :: r in Retrievals(dataDir, yms, box, existing) ==> r.target != GribPath(dataDir, ym / 100, ym % 100, box)
  {
  }

  /** No file name of an earlier month equals the file name of month `ym`. */
  lemma NotYetRequested(dataDir: string, visited: seq<nat>, box: BoundingBox, existing: set<string>, ym: nat)
    requires forall v :: v in visited ==> v < ym
    ensures forall r :: r in Retrievals(dataDir, visited, box, existing) ==> r.target != GribPath(dataDir, ym / 100, ym % 100, box)
  {
    forall r | r in Retrievals(dataDir, visited, box, existing) ensures r.target != GribPath(dataDir, ym / 100, ym % 100, box) {
      var v :| v in visited && r == RequestFor(dataDir, v, box);
      MonthFilesDiffer(dataDir, v, ym, box);
    }
  }

  lemma MonthFilesDiffer(dataDir: string, v: nat, ym: nat, box: BoundingBox)
    requires v < ym
    ensures RequestFor(dataDir, v, box).target != GribPath(dataDir, ym / 100, ym % 100, box)
  {
    if RequestFor(dataDir, v, box).target == GribPath(dataDir, ym / 100, ym % 100, box) {
      GribPathInjective(dataDir, v / 100, v % 100, ym / 100, ym % 100, box);
      assert false;
    }
  }

  /** One turn of the loop: the file of month `ym` is requested exactly when it is
      not yet in the archive, and either way the requests and the archive keep their
      relation to the year-months visited so far. */
  lemma LoopStep(dataDir: string, visited: seq<nat>, ym: nat, box: BoundingBox, existing: set<string>,
                 requests: seq<Retrieval>, archive: set<string>)
    requires forall v :: v in visited ==> v < ym
    requires requests == Retrievals(dataDir, visited, box, existing)
    requires archive == existing + Targets(requests)
    ensures RequestFor(dataDir, ym, box).target in archive ==>
      requests == Retrievals(dataDir, visited + [ym], box, existing)
    ensures RequestFor(dataDir, ym, box).target !in archive ==>
      requests + [RequestFor(dataDir, ym, box)] == Retrievals(dataDir, visited + [ym], box, existing) &&
      archive + {RequestFor(dataDir, ym, box).target} == existing + Targets(requests + [RequestFor(dataDir, ym, box)])
  {
    NotYetRequested(dataDir, visited, box, existing, ym);
    assert (visited + [ym])[..|visited|] == visited;
    assert (requests + [RequestFor(dataDir, ym, box)])[..|requests|] == requests;
  }

  /** The files a list of retrievals writes. */
  function Targets(rs: seq<Retrieval>): (files: set<string>)
    ensures forall f :: f in files <==> exists r :: r in rs && r.target == f
  {
    if rs == [] then {}
    else
      var n := |rs| - 1;
      assert forall r :: r in rs <==> r in rs[..n] || r == rs[n] by { assert rs == rs[..n] + [rs[n]]; }
      Targets(rs[..n]) + {rs[n].target}
  }

  lemma MonthsFromStep(visited: seq<nat>, ym: nat, next: nat, last: int)
    requires ym <= last && next == NextMonth(ym)
    ensures (visited + [ym]) + MonthsFrom(next, last) == visited + MonthsFrom(ym, last)
  {
  }

  lemma AllBeforeStep(visited: seq<nat>, ym: nat, next: nat)
    requires forall v :: v in visited ==> v < ym
    requires ym < next
    ensures forall v :: v in visited + [ym] ==> v < next
  {
  }

  /** The loop's update of `year` and `month` yields the next year-month. */
  lemma NextMonthDigits(ym: nat, year: nat, month: nat)
    requires ym % 100 + 1 > 12 ==> year == ym / 100 + 1 && month == 1
    requires ym % 100 + 1 <= 12 ==> year == ym / 100 && month == ym % 100 + 1
    ensures year * 100 + month == NextMonth(ym)
  {
  }

  /** The smallest and the largest of the requested year-months. */
  function FirstMonth(ymRange: seq<int>): (ym: nat)
    requires |ymRange| > 0 && forall i :: 0 <= i < |ymRange| ==> SixDigits(ymRange[i])
    ensures SixDigits(ym) && ym in ymRange && forall y :: y in ymRange ==> ym <= y
  {
    var k := ArgMin(ymRange, y => y as real);
    assert SixDigits(ymRange[k]);
    ymRange[k]
  }

  function LastMonth(ymRange: seq<int>): (ym: nat)
    requires |ymRange| > 0 && forall i :: 0 <= i < |ymRange| ==> SixDigits(ymRange[i])
    ensures SixDigits(ym) && ym in ymRange && forall y :: y in ymRange ==> y <= ym
  {
    var k := ArgMax(ymRange, y => y as real);
    assert SixDigits(ymRange[k]);
    ymRange[k]
  }

  /** The download loop. `existing` is the set of files present when it starts; the
      loop returns the year-months it visits, the retrievals it makes, and the files
      present at the end. */
  method DownloadMonths(dataDir: string, ymRange: seq<int>, latRange: seq<Coord>, lonRange: seq<Coord>, existing: set<string>)
    returns (visited: seq<nat>, requests: seq<Retrieval>, archive: set<string>)
    requires |ymRange| > 0 && |latRange| > 0 && |lonRange| > 0
    requires forall i :: 0 <= i < |ymRange| ==> SixDigits(ymRange[i])
    ensures visited == MonthsFrom(FirstMonth(ymRange), LastMonth(ymRange))
    ensures requests == Retrievals(dataDir, visited, BoxOf(latRange, lonRange), existing)
    ensures archive == existing + Targets(requests)
  {
    var first, last := FirstMonth(ymRange), LastMonth(ymRange);
    var box := BoxOf(latRange, lonRange);
    var ym: nat := first;
    visited, requests, archive := [], [], existing;
    while ym <= last
      invariant visited + MonthsFrom(ym, last) == MonthsFrom(first, last)
      invariant forall v :: v in visited ==> v < ym
      invariant requests == Retrievals(dataDir, visited, box, existing)
      invariant archive == existing + Targets(requests)
      decreases last - ym
    {
      ghost var before, previous := visited, ym;
      var year, month := ym / 100, ym % 100;
      var request := RequestFor(dataDir, ym, box);
      var filename := request.target;
      LoopStep(dataDir, visited, ym, box, existing, requests, archive);
      if filename !in archive {
        requests := requests + [request];
        archive := archive + {filename};
      }
      visited := visited + [ym];
      month := month + 1;
      if month > 12 {
        year := year + 1;
        month := 1;
      }
      NextMonthDigits(ym, year, month);
      ym := year * 100 + month;
      MonthsFromStep(before, previous, ym, last);
      AllBeforeStep(before, previous, ym);
    }
  }
}
