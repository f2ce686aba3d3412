/** The GRIB file filter and the loading loop of `query_from_grib`
    (src/beemeteo/sources/era5/utils.py). The directory listing is an input and the
    decoding of one file (cfgrib, `cleaning_pipe`, the merge and
    `transformation_pipe`) is a function parameter. */
module Era5Query {
  import opened Wrappers
  import opened Text
  import opened Era5Download
  import opened Era5Variables

  /** `os.path.splitext(fn)[0]` for a name ending in ".grib": the name without the
      extension, unless everything before ".grib" is dots, in which case the dot
      belongs to a leading run and there is no extension. */
  function Root(fn: string): (root: string)
    requires EndsWith(fn, ".grib")
    ensures root == fn || root + ".grib" == fn
    ensures root == fn <==> forall i :: 0 <= i < |fn| - 5 ==> fn[i] == '.'
  {
    var stem := fn[..|fn| - 5];
    assert stem + ".grib" == fn;
    if forall i :: 0 <= i < |stem| ==> stem[i] == '.' then fn else stem
  }

  /** `float(root.split('_')[i])`: an `IndexError` when there are too few fields, a
      `ValueError` when the field is not a number. */
  function FieldValue(root: string, i: nat): (r: Result<real>)
    ensures r.Ok? <==> i < |Split(root, '_')| && ParseNumber(Split(root, '_')[i]).Some?
    ensures r.Ok? ==> Some(r.value) == ParseNumber(Split(root, '_')[i])
  {
    var fields := Split(root, '_');
    if i >= |fields| then Failure("IndexError: list index out of range")
    else
      match ParseNumber(fields[i])
      case None => Failure("ValueError: could not convert string to float")
      case Some(v) => Ok(v)
  }

  /** `lat is None or float(f[1]) >= lat >= float(f[3])`. The chained comparison
      stops after its first half when that is false, so field 3 is only read when
      field 1 is not below `lat`. */
  function LatitudeOk(root: string, lat: Option<real>): Result<bool>
  {
    if lat.None? then Ok(true)
    else
      var top :- FieldValue(root, 1);
      if !(top >= lat.value) then Ok(false)
      else
        var bottom :- FieldValue(root, 3);
        Ok(lat.value >= bottom)
  }

  /** `lon is None or float(f[2]) <= lon <= float(f[4])`, short-circuiting the same way. */
  function LongitudeOk(root: string, lon: Option<real>): Result<bool>
  {
    if lon.None? then Ok(true)
    else
      var left :- FieldValue(root, 2);
      if !(left <= lon.value) then Ok(false)
      else
        var right :- FieldValue(root, 4);
        Ok(lon.value <= right)
  }

  /** The condition of the list comprehension for one directory entry, its four
      conjuncts evaluated left to right and stopping at the first false one. */
  function Selects(fn: string, lat: Option<real>, lon: Option<real>, contains: Option<string>): (r: Result<bool>)
    ensures !EndsWith(fn, ".grib") ==> r == Ok(false)
    ensures r == Ok(true) ==> contains.None? || Contains(fn, contains.value)
  {
    if !EndsWith(fn, ".grib") then Ok(false)
    else
      var latOk :- LatitudeOk(Root(fn), lat);
      if !latOk then Ok(false)
      else
        var lonOk :- LongitudeOk(Root(fn), lon);
        if !lonOk then Ok(false)
        else Ok(contains.None? || Contains(fn, contains.value))
  }

  /** The directory entries the comprehension keeps, in listing order; it raises
      when the condition raises for any entry. */
  function SelectNames(listing: seq<string>, lat: Option<real>, lon: Option<real>, contains: Option<string>): (r: Result<seq<string>>)
    ensures r.Failure? <==> exists fn :: fn in listing && Selects(fn, lat, lon, contains).Failure?
    ensures r.Ok? ==> forall fn :: fn in r.value <==> fn in listing && Selects(fn, lat, lon, contains) == Ok(true)
  {
    if listing == [] then Ok([])
    else
      var fn := listing[0];
      assert forall x :: x in listing <==> x == fn || x in listing[1..];
      var keep :- Selects(fn, lat, lon, contains);
      var rest :- SelectNames(listing[1..], lat, lon, contains);
      Ok(if keep then [fn] + rest else rest)
  }

  function Paths(dataDir: string, names: seq<string>): (paths: seq<string>)
    ensures |paths| == |names| && forall i :: 0 <= i < |names| ==> paths[i] == dataDir + "/" + names[i]
  {
    seq(|names|, i requires 0 <= i < |names| => dataDir + "/" + names[i])
  }

  /** `list_grib_files`: the paths of the selected entries, sorted. */
  function SelectGribFiles(dataDir: string, listing: seq<string>, lat: Option<real>, lon: Option<real>, contains: Option<string>): (r: Result<seq<string>>)
    ensures r.Failure? <==> exists fn :: fn in listing && Selects(fn, lat, lon, contains).Failure?
    ensures r.Ok? ==> Sorted(r.value)
    ensures r.Ok? ==> forall fn :: fn in listing && Selects(fn, lat, lon, contains) == Ok(true) ==> dataDir + "/" + fn in r.value
    ensures r.Ok? ==> forall p :: p in r.value ==> exists fn :: fn in listing && Selects(fn, lat, lon, contains) == Ok(true) && p == dataDir + "/" + fn
  {
    var names :- SelectNames(listing, lat, lon, contains);
    var paths := Paths(dataDir, names);
    var sorted := SortStrings(paths);
    SortStringsMembers(paths);
    PathsMembers(dataDir, names);
    Ok(sorted)
  }

  lemma PathsMembers(dataDir: string, names: seq<string>)
    ensures forall fn :: fn in names ==> dataDir + "/" + fn in Paths(dataDir, names)
    ensures forall p :: p in Paths(dataDir, names) ==> exists fn :: fn in names && p == dataDir + "/" + fn
  {
    var paths := Paths(dataDir, names);
    forall fn | fn in names ensures dataDir + "/" + fn in paths {
      var i :| 0 <= i < |names| && names[i] == fn;
      assert paths[i] == dataDir + "/" + fn;
    }
    forall p | p in paths ensures exists fn :: fn in names && p == dataDir + "/" + fn {
      var i :| 0 <= i < |paths| && paths[i] == p;
      assert names[i] in names;
    }
  }

  /** The root of a file the downloader wrote is its stem: the stem starts with a
      digit of the year, so it is not a run of dots. */
  lemma GribNameRoot(year: nat, month: nat, box: BoundingBox)
    ensures EndsWith(GribName(year, month, box), ".grib")
    ensures Root(GribName(year, month, box)) == GribStem(year, month, box)
  {
    var fields := GribFields(year, month, box);
    var stem := GribStem(year, month, box);
    var name := GribName(year, month, box);
    assert name[..|name| - 5] == stem;
    assert name[|name| - 5..] == ".grib";
    var digits := NatToString(year);
    assert fields[0] == digits + ZeroPad2(month);
    assert stem == fields[0] + ['_'] + Join(fields[1..], '_');
    assert stem[0] == digits[0];
    assert IsDigit(digits[0]) && stem[0] != '.';
    assert Root(name) == stem;
  }

  /** A file the downloader named after a bounding box is selected exactly when the
      requested point lies in the box (a missing coordinate constraining nothing)
      and the name contains the requested text, if any. Nothing in the name makes
      the filter raise. */
  lemma GribNameSelected(year: nat, month: nat, box: BoundingBox, lat: Option<real>, lon: Option<real>, contains: Option<string>)
    ensures Selects(GribName(year, month, box), lat, lon, contains) ==
      Ok((lat.None? || Value(box.minLat) <= lat.value <= Value(box.maxLat)) &&
         (lon.None? || Value(box.minLon) <= lon.value <= Value(box.maxLon)) &&
         (contains.None? || Contains(GribName(year, month, box), contains.value)))
  {
    GribNameRoot(year, month, box);
    GribStemSplits(year, month, box);
    var fields := GribFields(year, month, box);
    var root := GribStem(year, month, box);
    FieldReadsBack(root, fields, 1, box.maxLat);
    FieldReadsBack(root, fields, 2, box.minLon);
    FieldReadsBack(root, fields, 3, box.minLat);
    FieldReadsBack(root, fields, 4, box.maxLon);
  }

  /** A coordinate written as field `i` of a root reads back as its value. */
  lemma FieldReadsBack(root: string, fields: seq<string>, i: nat, c: Coord)
    requires Split(root, '_') == fields && i < |fields| && fields[i] == CoordString(c)
    ensures FieldValue(root, i) == Ok(Value(c))
  {
    CoordStringRoundTrip(c);
  }

  /** The rows of every loaded file, one file after another; the first file whose
      loading raises ends the loop with its error. */
  function ConcatLoads<R>(files: seq<string>, load: string -> Result<seq<R>>): (r: Result<seq<R>>)
    ensures r.Failure? <==> exists f :: f in files && load(f).Failure?
  {
    if files == [] then Ok([])
    else
      var n := |files| - 1;
      assert forall f :: f in files <==> f in files[..n] || f == files[n] by {
        assert files == files[..n] + [files[n]];
      }
      var prefix :- ConcatLoads(files[..n], load);
      var last :- load(files[n]);
      Ok(prefix + last)
  }

  /** When no file raises, a row is in the concatenation exactly when one of the
      files yields it. */
  lemma {:induction false} ConcatLoadsRows<R>(files: seq<string>, load: string -> Result<seq<R>>)
    ensures ConcatLoads(files, load).Ok? ==> forall x :: x in ConcatLoads(files, load).value <==>
      exists f :: f in files && load(f).Ok? && x in load(f).value
  {
    if files != [] && ConcatLoads(files, load).Ok? {
      var prefix, last := files[..|files| - 1], files[|files| - 1];
      ConcatLoadsRows(prefix, load);
      assert files == prefix + [last];
      forall x ensures x in ConcatLoads(files, load).value <==> exists f :: f in files && load(f).Ok? && x in load(f).value {
        if x in load(last).value {
          assert last in files;
        } else if exists f :: f in files && load(f).Ok? && x in load(f).value {
          var f :| f in files && load(f).Ok? && x in load(f).value;
          assert f in prefix;
        }
      }
    }
  }

  lemma ConcatLoadsStep<R>(files: seq<string>, i: nat, load: string -> Result<seq<R>>)
    requires i < |files| && ConcatLoads(files[..i], load).Ok? && load(files[i]).Ok?
    ensures ConcatLoads(files[..i + 1], load) == Ok(ConcatLoads(files[..i], load).value + load(files[i]).value)
    ensures i == 0 ==> ConcatLoads(files[..i + 1], load) == Ok(load(files[i]).value)
  {
    assert files[..i + 1][..i] == files[..i];
    assert files[..i + 1][i] == files[i];
    if i == 0 {
      assert ConcatLoads(files[..0], load) == Ok([]);
      assert [] + load(files[0]).value == load(files[0]).value;
    }
  }

  lemma LoadFails<R>(files: seq<string>, i: nat, load: string -> Result<seq<R>>)
    requires i < |files| && load(files[i]).Failure?
    ensures ConcatLoads(files, load).Failure?
  {
    assert files[i] in files;
  }

  /** Each file goes through `cleaning_pipe` (line 197). As written, a query giving
      exactly one coordinate therefore raises as soon as one file is selected. */
  lemma OneCoordinateLoadRaises(files: seq<string>, decode: string -> seq<Cell>, lat: Option<real>, lon: Option<real>)
    requires files != [] && lat.Some? != lon.Some?
    ensures ConcatLoads(files, f => CleanCellsAsWritten(decode(f), lat, lon)).Failure?
  {
    assert files[0] in files;
  }

  /** `query_from_grib`: selects and sorts the files, then loads each in turn and
      concatenates. With no file selected the frame stays `None`; a file whose
      decoding or cleaning raises makes the query raise. */
  method QueryFromGrib<R>(dataDir: string, listing: seq<string>, lat: Option<real>, lon: Option<real>, contains: Option<string>,
                          load: string -> Result<seq<R>>)
    returns (df: Result<Option<seq<R>>>)
    ensures df.Failure? <==>
      (SelectGribFiles(dataDir, listing, lat, lon, contains).Failure? ||
       ConcatLoads(SelectGribFiles(dataDir, listing, lat, lon, contains).value, load).Failure?)
    ensures df.Ok? ==> var files := SelectGribFiles(dataDir, listing, lat, lon, contains).value;
      (df.value.None? <==> files == []) && (df.value.Some? ==> df.value.value == ConcatLoads(files, load).value)
  {
    var selected := SelectGribFiles(dataDir, listing, lat, lon, contains);
    if selected.Failure? {
      return Failure(selected.error);
    }
    var files := selected.value;
    var frame: Option<seq<R>> := None;
    for i := 0 to |files|
      invariant ConcatLoads(files[..i], load).Ok?
      invariant i == 0 ==> frame.None?
      invariant i > 0 ==> frame == Some(ConcatLoads(files[..i], load).value)
    {
      var part := load(files[i]);
      if part.Failure? {
        LoadFails(files, i, load);
        return Failure(part.error);
      }
      ConcatLoadsStep(files, i, load);
      if frame.Some? {
        frame := Some(frame.value + part.value);
      } else {
        frame := Some(part.value);
      }
    }
    assert files[..|files|] == files;
    return Ok(frame);
  }
}
