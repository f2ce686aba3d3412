/** The `shift` helper and the column arithmetic of `transformation_pipe`
    (src/beemeteo/sources/era5/utils.py). A column is a sequence of cells and a NaN
    cell is `None`. */
module Era5Transform {
  import opened Wrappers

  // ---------------------------------------------------------------------------
  // shift

  /** The array `shift(arr, num, fill)` returns: element `i` comes from `i - num`
      when that index exists, and is the fill value otherwise. */
  function Shifted<T>(arr: seq<T>, num: int, fill: T): (r: seq<T>)
    ensures |r| == |arr|
    ensures num > 0 ==> forall i :: 0 <= i < |r| && i < num ==> r[i] == fill
    ensures num > 0 ==> forall i :: num <= i < |r| ==> r[i] == arr[i - num]
    ensures num < 0 ==> forall i :: 0 <= i < |r| && i >= |r| + num ==> r[i] == fill
    ensures num < 0 ==> forall i :: 0 <= i < |r| + num ==> r[i] == arr[i - num]
    ensures num == 0 ==> r == arr
  {
    seq(|arr|, i requires 0 <= i < |arr| => if 0 <= i - num < |arr| then arr[i - num] else fill)
  }

  /** `shift`: a new array, its leading (`num > 0`) or trailing (`num < 0`) `|num|`
      slots set to the fill value and the rest copied from `arr` moved by `num`
      places; `num == 0` copies `arr`. */
  method Shift<T>(arr: seq<T>, num: int, fill: T) returns (result: array<T>)
    ensures result.Length == |arr|
    ensures result[..] == Shifted(arr, num, fill)
  {
    var n := |arr|;
    result := new T[n](_ => fill);
    if num > 0 {
      forall i | 0 <= i < n && i < num {
        result[i] := fill;
      }
      forall i | num <= i < n {
        result[i] := arr[i - num];
      }
    } else if num < 0 {
      forall i | 0 <= i < n && i >= n + num {
        result[i] := fill;
      }
      forall i | 0 <= i < n + num {
        result[i] := arr[i - num];
      }
    } else {
      forall i | 0 <= i < n {
        result[i] := arr[i];
      }
    }
  }

  /** Shifting back by the same amount restores every element that was not pushed
      off the end. */
  lemma ShiftBackRestores<T>(arr: seq<T>, num: int, fill: T)
    ensures forall i :: 0 <= i < |arr| && 0 <= i + num < |arr| ==> Shifted(Shifted(arr, num, fill), -num, fill)[i] == arr[i]
  {
    var once := Shifted(arr, num, fill);
    forall i | 0 <= i < |arr| && 0 <= i + num < |arr| ensures Shifted(once, -num, fill)[i] == arr[i] {
      assert Shifted(once, -num, fill)[i] == once[i + num];
    }
  }

  // ---------------------------------------------------------------------------
  // De-accumulation

  /** NaN-propagating subtraction. */
  function Minus(a: Option<real>, b: Option<real>): Option<real> {
    if a.Some? && b.Some? then Some(a.value - b.value) else None
  }

  /** `np.array(x) - shift(x, 1)`: each cell minus the one before, NaN at the start
      and wherever a cell involved is NaN. */
  function Difference(x: seq<Option<real>>): (d: seq<Option<real>>)
    ensures |d| == |x|
    ensures |x| > 0 ==> d[0].None?
    ensures forall i :: 1 <= i < |x| ==>
      d[i] == (if x[i].Some? && x[i - 1].Some? then Some(x[i].value - x[i - 1].value) else None)
  {
    var previous := Shifted(x, 1, None);
    seq(|x|, i requires 0 <= i < |x| => Minus(x[i], previous[i]))
  }

  /** Seconds in the hour over which ERA5 accumulates. */
  const SecondsPerHour: real := 3600.0

  /** `np.where(d > 0, d / 3600, otherwise)` for one cell; NaN compares false. */
  function PositiveRate(d: Option<real>, otherwise: Option<real>): (r: Option<real>)
    ensures d.Some? && d.value > 0.0 ==> r.Some? && r.value > 0.0 && r.value * SecondsPerHour == d.value
    ensures !(d.Some? && d.value > 0.0) ==> r == otherwise
  {
    if d.Some? && d.value > 0.0 then Some(d.value / SecondsPerHour) else otherwise
  }

  /** Lines 166-167: an hourly radiation rate. ERA5 accumulates radiation, so the
      rate is the positive part of the difference divided by 3600 seconds; a
      difference that is not positive, or NaN (as at the first hour), gives 0. */
  function RadiationRate(x: seq<Option<real>>): (out: seq<Option<real>>)
    ensures |out| == |x|
  {
    var d := Difference(x);
    seq(|x|, i requires 0 <= i < |x| => PositiveRate(d[i], Some(0.0)))
  }

  /** The radiation rate is 0 at the first hour, the positive differences over
      3600 elsewhere, and never missing or negative. */
  lemma RadiationRateValues(x: seq<Option<real>>)
    ensures |x| > 0 ==> RadiationRate(x)[0] == Some(0.0)
    ensures forall i :: 1 <= i < |x| && x[i].Some? && x[i - 1].Some? && x[i].value - x[i - 1].value > 0.0 ==>
      RadiationRate(x)[i] == Some((x[i].value - x[i - 1].value) / 3600.0)
    ensures forall i :: 1 <= i < |x| && !(x[i].Some? && x[i - 1].Some? && x[i].value - x[i - 1].value > 0.0) ==>
      RadiationRate(x)[i] == Some(0.0)
    ensures forall i :: 0 <= i < |x| ==> RadiationRate(x)[i].Some? && RadiationRate(x)[i].value >= 0.0
  {
    var d := Difference(x);
    forall i | 0 <= i < |x|
      ensures RadiationRate(x)[i] == PositiveRate(d[i], Some(0.0))
    {
    }
  }

  /** Lines 168-169: an hourly precipitation rate, the positive differences over
      3600 seconds; any other difference, zero included, becomes NaN. */
  function PrecipitationRate(x: seq<Option<real>>): (out: seq<Option<real>>)
    ensures |out| == |x|
  {
    var d := Difference(x);
    seq(|x|, i requires 0 <= i < |x| => PositiveRate(d[i], None))
  }

  /** The precipitation rate is NaN at the first hour, the positive differences
      over 3600 elsewhere, NaN for every other difference, and positive wherever it
      is defined. */
  lemma PrecipitationRateValues(x: seq<Option<real>>)
    ensures |x| > 0 ==> PrecipitationRate(x)[0].None?
    ensures forall i :: 1 <= i < |x| && x[i].Some? && x[i - 1].Some? && x[i].value - x[i - 1].value > 0.0 ==>
      PrecipitationRate(x)[i] == Some((x[i].value - x[i - 1].value) / 3600.0)
    ensures forall i :: 1 <= i < |x| && !(x[i].Some? && x[i - 1].Some? && x[i].value - x[i - 1].value > 0.0) ==>
      PrecipitationRate(x)[i].None?
    ensures forall i :: 0 <= i < |x| && PrecipitationRate(x)[i].Some? ==> PrecipitationRate(x)[i].value > 0.0
  {
    var d := Difference(x);
    forall i | 0 <= i < |x|
      ensures PrecipitationRate(x)[i] == PositiveRate(d[i], None)
    {
    }
  }

  /** Where precipitation has a rate the radiation formula would give the same
      number, and where it has none the radiation formula gives 0: the two differ
      only in what they put for a non-positive difference. */
  lemma RatesAgreeOnPositiveDifferences(x: seq<Option<real>>)
    ensures forall i :: 0 <= i < |x| ==>
      RadiationRate(x)[i] == (if PrecipitationRate(x)[i].Some? then PrecipitationRate(x)[i] else Some(0.0))
  {
  }

  // ---------------------------------------------------------------------------
  // Kelvin to Celsius

  const KelvinOffset: real := 273.15

  /** Lines 160-162: a temperature column in Kelvin converted to Celsius, NaN kept. */
  function ToCelsius(column: seq<Option<real>>): (r: seq<Option<real>>)
    ensures |r| == |column|
    ensures forall i :: 0 <= i < |column| ==> r[i].Some? == column[i].Some?
  {
    seq(|column|, i requires 0 <= i < |column| => if column[i].Some? then Some(column[i].value - KelvinOffset) else None)
  }

  function ToKelvin(column: seq<Option<real>>): (r: seq<Option<real>>)
    ensures |r| == |column|
  {
    seq(|column|, i requires 0 <= i < |column| => if column[i].Some? then Some(column[i].value + KelvinOffset) else None)
  }

  /** Converting back to Kelvin restores the column, and the conversion keeps the
      order of any two temperatures and their differences. */
  lemma ToCelsiusRoundTrip(column: seq<Option<real>>)
    ensures ToKelvin(ToCelsius(column)) == column
    ensures forall i, j :: 0 <= i < |column| && 0 <= j < |column| && column[i].Some? && column[j].Some? ==>
      ToCelsius(column)[i].value - ToCelsius(column)[j].value == column[i].value - column[j].value
  {
    assert forall i :: 0 <= i < |column| ==> ToKelvin(ToCelsius(column))[i] == column[i];
  }

  // ---------------------------------------------------------------------------
  // The frame transformation_pipe rewrites

  /** The columns of one decoded GRIB file that `transformation_pipe` overwrites,
      one cell per hourly row. */
  class HourlyFrame {
    var airTemperature: seq<Option<real>>
    var dewAirTemperature: seq<Option<real>>
    var soilTemperature: seq<Option<real>>
    var ghi: seq<Option<real>>
    var totalPrecipitation: seq<Option<real>>

    /** All columns have one cell per row. */
    predicate Valid()
      reads this
    {
      |dewAirTemperature| == |airTemperature| && |soilTemperature| == |airTemperature| &&
      |ghi| == |airTemperature| && |totalPrecipitation| == |airTemperature|
    }

    function Rows(): nat
      reads this
    {
      |airTemperature|
    }

    constructor (air: seq<Option<real>>, dew: seq<Option<real>>, soil: seq<Option<real>>,
                 radiation: seq<Option<real>>, precipitation: seq<Option<real>>)
      requires |dew| == |air| && |soil| == |air| && |radiation| == |air| && |precipitation| == |air|
      ensures Valid()
      ensures airTemperature == air && dewAirTemperature == dew && soilTemperature == soil
      ensures ghi == radiation && totalPrecipitation == precipitation
    {
      airTemperature, dewAirTemperature, soilTemperature := air, dew, soil;
      ghi, totalPrecipitation := radiation, precipitation;
    }

    /** The column assignments of lines 160-169, in their order; the row count is
      kept. */
    method Transform()
      requires Valid()
      modifies this
      ensures Valid() && Rows() == old(Rows())
      ensures soilTemperature == ToCelsius(old(soilTemperature))
      ensures dewAirTemperature == ToCelsius(old(dewAirTemperature))
      ensures airTemperature == ToCelsius(old(airTemperature))
      ensures ghi == RadiationRate(old(ghi))
      ensures totalPrecipitation == PrecipitationRate(old(totalPrecipitation))
    {
      soilTemperature := ToCelsius(soilTemperature);
      dewAirTemperature := ToCelsius(dewAirTemperature);
      airTemperature := ToCelsius(airTemperature);
      ghi := RadiationRate(ghi);
      totalPrecipitation := PrecipitationRate(totalPrecipitation);
    }
  }
}
