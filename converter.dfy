/** The converter class `GeoJson` of the WRF-to-GeoJSON tool: which slice of which
    file it reads, the contour levels it asks for, the features it assembles and
    where the document goes; and the two command-line normalisations the tool's
    entry point applies before building a converter. Reading the file, contouring
    the grid, interpolating grid positions to longitude/latitude and printing a
    float are the external calls of an `Env`. */
module Converter {

  import opened Wrappers
  import Contours
  import Features

  /** A 2-D grid of values, row by row. */
  type Grid = seq<seq<real>>

  /** A vertical level, or `None` for none given. */
  type ZLevel = Option<int>

  /** The converter's constructor arguments: the input file, its type, the variable,
      the value range and the contour interval (in tenths), the palette name and the
      vertical level. */
  datatype Settings = Settings(
    wrfFile: string,
    fileType: string,
    variable: string,
    min10: int,
    max10: int,
    interval10: int,
    palette: string,
    zLevel: ZLevel)

  /** What to read. NetCDF: variable `variable` at time 0, and at level `level` when
      one is given, else the whole (2-D) field at time 0. GRIB2: message `message` of
      those whose short name is `shortName`. */
  datatype ReadRequest =
    | NetcdfRead(file: string, variable: string, level: Option<int>)
    | GribRead(file: string, shortName: string, message: int)

  /** The data grid and the latitude and longitude grids read from the file. */
  datatype Grids = Grids(data: Grid, lat: Grid, lon: Grid)

  /** The converter's external calls: the file reader, the contouring of a grid at
      given levels (in tenths) with a palette, the interpolation of a grid position to
      (lon, lat) on given latitude and longitude grids, and `str` of a float. */
  datatype Env = Env(
    read: ReadRequest -> Grids,
    contourf: (Grid, seq<int>, string) -> seq<Features.ContourBand>,
    gridToLonLat: (Grid, Grid, real, real) -> (real, real),
    fmt: real -> string)

  /** How `convert` ends. */
  datatype Outcome =
    | InvalidFileType                                        // error logged, returns None
    | IntervalError                                          // `range` raised ValueError
    | Returned(doc: Features.FeatureCollection)              // no output file: the document
    | Written(path: string, doc: Features.FeatureCollection) // compressed JSON written, returns None

  /** Python's truth value of a level: None and 0 are false, every other level true. */
  predicate SelectsLevel(z: ZLevel): (b: bool)
    ensures b <==> z != None && z != Some(0)
  {
    z.Some? && z.value != 0
  }

  /** The dispatch on the file type together with the level selection of the two
      readers. Only `grib2` and `netcdf` are read. */
  function ReadRequestFor(s: Settings): (r: Option<ReadRequest>)
    ensures r.Some? <==> s.fileType == "grib2" || s.fileType == "netcdf"
  {
    if s.fileType == "grib2" then
      Some(GribRead(s.wrfFile, s.variable, if SelectsLevel(s.zLevel) then s.zLevel.value else 0))
    else if s.fileType == "netcdf" then
      Some(NetcdfRead(s.wrfFile, s.variable, if SelectsLevel(s.zLevel) then s.zLevel else None))
    else
      None
  }

  /** A level of None or 0 reads the 2-D field (NetCDF) or message 0 (GRIB2); any other
      level reads that level or that message. */
  lemma LevelSelection(s: Settings)
    ensures s.fileType == "netcdf" ==>
      ReadRequestFor(s) == Some(NetcdfRead(s.wrfFile, s.variable,
        if s.zLevel == None || s.zLevel == Some(0) then None else s.zLevel))
    ensures s.fileType == "grib2" ==>
      ReadRequestFor(s) == Some(GribRead(s.wrfFile, s.variable,
        if s.zLevel == None || s.zLevel == Some(0) then 0 else s.zLevel.value))
  {
  }

  /** `grid_to_lonlat` with the latitude and longitude grids fixed. */
  function OnGrids(gridToLonLat: (Grid, Grid, real, real) -> (real, real), lat: Grid, lon: Grid): Features.GridToLonLat
  {
    (x: real, y: real) => gridToLonLat(lat, lon, x, y)
  }

  /** The document `convert` builds from the contour set of the grids it read: one
      feature per contour path with polygons, filled with its band's colour. */
  function DocumentOf(s: Settings, env: Env, g: Grids, levels: seq<int>): (doc: Features.FeatureCollection)
    ensures var bands := env.contourf(g.data, levels, s.palette);
      var os := Features.Origins(bands);
      && |doc.features| == |os|
      && forall k :: 0 <= k < |os| ==>
           Features.HasPolygons(bands, os[k]) && doc.features[k].fill == bands[os[k].0].color
  {
    var bands := env.contourf(g.data, levels, s.palette);
    Features.FeaturesOfConvert(OnGrids(env.gridToLonLat, g.lat, g.lon), env.fmt, bands);
    Features.FeatureCollection(Features.FeaturesOf(Features.Builder(OnGrids(env.gridToLonLat, g.lat, g.lon), env.fmt), bands))
  }

  /** How `convert(out_file)` ends for the given settings and external calls: an
      unknown file type stops it, `range` raises for a zero interval, and otherwise the
      document is returned without an output file and written to the output file. */
  function ConvertOutcome(s: Settings, outFile: Option<string>, env: Env): (o: Outcome)
    ensures o.InvalidFileType? <==> s.fileType != "grib2" && s.fileType != "netcdf"
    ensures o.IntervalError? <==> (s.fileType == "grib2" || s.fileType == "netcdf") && s.interval10 == 0
    ensures o.Returned? <==> (s.fileType == "grib2" || s.fileType == "netcdf") && s.interval10 != 0 && outFile.None?
    ensures o.Written? ==> o.path == outFile.value
  {
    match ReadRequestFor(s)
    case None => InvalidFileType
    case Some(request) =>
      match Contours.Levels(s.min10, s.max10, s.interval10)
      case None => IntervalError
      case Some(levels) =>
        var doc := DocumentOf(s, env, env.read(request), levels);
        if outFile.None? then Returned(doc) else Written(outFile.value, doc)
  }

  /** Only the two known file types go on to produce a document; any other type ends
      at once, with no features. Of the errors, only the one `range` raises for a zero
      interval is modelled; the contouring call is total here. */
  lemma OnlyKnownTypesConvert(s: Settings, outFile: Option<string>, env: Env)
    ensures ConvertOutcome(s, outFile, env) == InvalidFileType <==> s.fileType != "grib2" && s.fileType != "netcdf"
    ensures ConvertOutcome(s, outFile, env) == IntervalError <==>
      (s.fileType == "grib2" || s.fileType == "netcdf") && s.interval10 == 0
  {
  }

  /** With a known type and a non-zero interval the document's features are those of
      the contour set computed at the levels of `Contours.Levels`; it is returned when
      there is no output file and written to the output file otherwise. */
  lemma ConvertProducesFeatures(s: Settings, outFile: Option<string>, env: Env)
    requires s.fileType == "grib2" || s.fileType == "netcdf"
    requires s.interval10 != 0
    ensures var o := ConvertOutcome(s, outFile, env);
      var g := env.read(ReadRequestFor(s).value);
      var levels := Contours.Levels(s.min10, s.max10, s.interval10).value;
      && (outFile.None? ==> o.Returned?)
      && (outFile.Some? ==> o.Written? && o.path == outFile.value)
      && o.doc.features == Features.FeaturesOf(Features.Builder(OnGrids(env.gridToLonLat, g.lat, g.lon), env.fmt),
                                               env.contourf(g.data, levels, s.palette))
  {
  }

  /** The converter object. The latitude and longitude grids are kept in the object
      once read, as the source does. */
  class GeoJson {
    const wrfFile: string
    const fileType: string
    const variable: string
    const zLevel: ZLevel
    const min10: int
    const max10: int
    const interval10: int
    const palette: string
    var gridLat: Option<Grid>
    var gridLon: Option<Grid>

    constructor(wrfFile: string, fileType: string, variable: string, min10: int, max10: int,
                interval10: int, palette: string, zLevel: ZLevel)
      ensures Config() == Settings(wrfFile, fileType, variable, min10, max10, interval10, palette, zLevel)
      ensures gridLat.None? && gridLon.None?
    {
      this.wrfFile := wrfFile;
      this.fileType := fileType;
      this.variable := variable;
      this.zLevel := zLevel;
      this.min10 := min10;
      this.max10 := max10;
      this.interval10 := interval10;
      this.palette := palette;
      this.gridLat := None;
      this.gridLon := None;
    }

    function Config(): Settings
    {
      Settings(wrfFile, fileType, variable, min10, max10, interval10, palette, zLevel)
    }

    /** `convert(out_file)`: read the grids for a known file type (else stop), compute
        the levels (a zero interval raises), contour, assemble the features, and
        return the document or write it to the output file. */
    method Convert(outFile: Option<string>, env: Env) returns (outcome: Outcome)
      modifies this
      ensures outcome == ConvertOutcome(Config(), outFile, env)
      ensures ReadRequestFor(Config()).None? ==> gridLat == old(gridLat) && gridLon == old(gridLon)
      ensures ReadRequestFor(Config()).Some? ==>
        var g := env.read(ReadRequestFor(Config()).value);
        gridLat == Some(g.lat) && gridLon == Some(g.lon)
    {
      var request := ReadRequestFor(Config());
      if request.None? {
        return InvalidFileType;
      }
      var grids := env.read(request.value);
      gridLat, gridLon := Some(grids.lat), Some(grids.lon);
      var levels := Contours.Levels(min10, max10, interval10);
      if levels.None? {
        return IntervalError;
      }
      var contours := env.contourf(grids.data, levels.value, palette);
      var features := Features.AssembleFeatures(OnGrids(env.gridToLonLat, grids.lat, grids.lon), env.fmt, contours);
      var doc := Features.FeatureCollection(features);
      if outFile.None? {
        return Returned(doc);
      }
      return Written(outFile.value, doc);
    }
  }

  /** `_manual_product`: build one converter, run it, and print the document when
      `convert` returned one. */
  method ManualProduct(s: Settings, outFile: Option<string>, env: Env)
    returns (outcome: Outcome, printed: Option<Features.FeatureCollection>)
    ensures outcome == ConvertOutcome(s, outFile, env)
    ensures printed.Some? <==> outcome.Returned?
    ensures printed.Some? ==> outFile.None? && printed.value == outcome.doc
  {
    var converter := new GeoJson(s.wrfFile, s.fileType, s.variable, s.min10, s.max10,
                                 s.interval10, s.palette, s.zLevel);
    outcome := converter.Convert(outFile, env);
    printed := if outcome.Returned? then Some(outcome.doc) else None;
  }

  // ---------------------------------------------------------------------------
  // Command line
  // ---------------------------------------------------------------------------

  /** `args.z_level or None`: a level of 0 given on the command line becomes None. */
  function CliZLevel(z: Option<int>): (r: ZLevel)
    ensures r.None? <==> z.None? || z == Some(0)
    ensures r.Some? ==> r == z
  {
    if z.Some? && z.value != 0 then z else None
  }

  /** `args.out_file or None`: an empty output path means standard output. */
  function CliOutFile(path: Option<string>): (r: Option<string>)
    ensures r.None? <==> path.None? || path == Some("")
    ensures r.Some? ==> r == path
  {
    if path.Some? && path.value != "" then path else None
  }

  /** Mapping a level of 0 to None on the command line does not change what is read. */
  lemma CliZLevelReadsSame(s: Settings, z: Option<int>)
    ensures ReadRequestFor(s.(zLevel := CliZLevel(z))) == ReadRequestFor(s.(zLevel := z))
  {
  }
}
