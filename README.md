# WRF-to-GeoJSON converter, modelled in Dafny

The WRF cloud runtime has a tool, `wrfcloud/runtime/tools/geojson.py`, that turns one field of a
WRF model output file (NetCDF or GRIB2) into a GeoJSON `FeatureCollection` of filled contour
polygons. This project models its deterministic core and proves what that core promises:

- **Contour levels** (`Contours`). The value range and the contour interval are taken in integer
  tenths, and the levels are `range(min10, max10, ci10)`. Python's `range` is modelled exactly,
  for either sign of step. A zero interval is the `ValueError` path.
- **MultiPolygon serialiser** (`MultiPolygon`). `_polygon_and_holes_to_multi_polygon` is a method
  with the source's loop. It returns `None` where the source would raise `IndexError` on a point
  with fewer than two components. Float printing is a parameter `fmt`. A parser for the produced
  text proves what the text contains: one ring per polygon, outer ring first, holes in order, two
  coordinates per point in point order.
- **Feature assembly** (`Features`). The doubly nested loop over contour bands and their paths
  emits one feature per path that has polygons. The fill is the band's colour. Order is band
  first, then path.
- **1-D to 2-D chunking** (`Grid`). `_1d_to_2d` slices a flat array into rows of `x` values, with
  Python's slice clamping and `range` semantics, including the `x == 0` error.
- **Batch planning** (`Products`). `_automate_products` turns every product into one conversion
  per vertical level, default `[None]`, each with its own output file name. A product without an
  entry for the file type ends the loop with a `KeyError`.
- **The converter** (`Converter`). It contains:
  - the class `GeoJson` and its `convert`;
  - the file-type dispatch and the level selection of the two readers;
  - `_manual_product`;
  - the command line's `or None` normalisations.

  The reader, `contourf`, the grid-to-longitude/latitude interpolation and float printing are
  the external calls bundled in an `Env`.

`Python` holds the built-ins the core relies on: `range`, slicing, `str` of an integer,
`", ".join` and list `repr`. `Wrappers` holds the `Option` type.

## Model

| member | source | states |
|---|---|---|
| Contours.Levels | python/src/wrfcloud/runtime/tools/geojson.py:68-71 | the level list exists exactly when the interval is non-zero (a zero step makes `range` raise) |
| Contours.AscendingLevels | python/src/wrfcloud/runtime/tools/geojson.py:68-71 | for a positive interval: level k is min10 + k·ci10; every level is below max10; the list is empty iff min10 >= max10; it stops at the first value reaching max10 |
| Contours.DescendingLevels | python/src/wrfcloud/runtime/tools/geojson.py:68-71 | for a negative interval: level k is min10 + k·ci10; every level is above max10; the list is empty iff min10 <= max10 |
| Contours.AscendingMembers | python/src/wrfcloud/runtime/tools/geojson.py:71 | for a positive interval, v is a level iff min10 <= v < max10 and v - min10 is a multiple of ci10 |
| Contours.LevelsAscending | python/src/wrfcloud/runtime/tools/geojson.py:71 | consecutive levels differ by exactly the interval |
| Python.RangeValuesAt | python/src/wrfcloud/runtime/tools/geojson.py:71 | element k of `range(start, stop, step)` is start + k·step |
| Python.AscendingRangeBounds | python/src/wrfcloud/runtime/tools/geojson.py:71 | with a positive step the range is empty iff start >= stop, its last element is below stop, and the next value would reach stop |
| Python.AscendingRangeMembers | python/src/wrfcloud/runtime/tools/geojson.py:71 | membership in an ascending range, both directions |
| Python.RowStarts | python/src/wrfcloud/runtime/tools/geojson.py:180 | `range(0, x*y, x)` for x > 0 has max(y, 0) elements, the k-th being k·x |
| Python.Slice | python/src/wrfcloud/runtime/tools/geojson.py:181 | for bounds `0 <= a <= b` a Python slice is the sub-sequence between the bounds clamped to the length |
| Python.IntTextShape | python/src/wrfcloud/runtime/tools/geojson.py:318 | `str(z_level)`: a minus sign exactly for a negative level, then at least one decimal digit |
| Python.ListReprShape | python/src/wrfcloud/runtime/tools/geojson.py:233 | `str` of a list: its items in brackets, `[]` for no items and `[x]` for one |
| Python.IntTextRoundTrip | python/src/wrfcloud/runtime/tools/geojson.py:318 | `str` of an integer parses back to that integer |
| Python.IntTextInjective | python/src/wrfcloud/runtime/tools/geojson.py:318 | distinct integers print differently |
| MultiPolygon.PolygonAndHolesToMultiPolygon | python/src/wrfcloud/runtime/tools/geojson.py:225-236 | fails exactly when some point has fewer than two components; otherwise the text is `'[' + ring(outer) + (',' + ring(h))* + ']'`, and just `'[' + ring(outer) + ']'` without holes |
| MultiPolygon.RingTextShape | python/src/wrfcloud/runtime/tools/geojson.py:233 | one ring's `str([[point[0], point[1]] ...])` is a bracketed list, `[]` exactly for a ring without points; `RingRoundTrip` reads its points back |
| MultiPolygon.MultiPolygonRoundTrip | python/src/wrfcloud/runtime/tools/geojson.py:233-236 | the serialised text parses back to the printed first two coordinates of every point of every ring |
| MultiPolygon.SerialisedRings | python/src/wrfcloud/runtime/tools/geojson.py:233-236 | the text has exactly 1 + number-of-holes rings, the outer ring first and the holes in input order, each ring keeping its points in order with two coordinates each |
| MultiPolygon.RingRoundTrip | python/src/wrfcloud/runtime/tools/geojson.py:233 | one ring's list repr parses back to its points' first two coordinates, leaving the rest of the text |
| MultiPolygon.PointRoundTrip | python/src/wrfcloud/runtime/tools/geojson.py:233 | one point's `[lon, lat]` text parses back to its two printed coordinates |
| Features.PolygonToCoordArray | python/src/wrfcloud/runtime/tools/geojson.py:214-223 | one longitude/latitude pair per polygon vertex, in vertex order, each the interpolation of that vertex |
| Features.CoordRings | python/src/wrfcloud/runtime/tools/geojson.py:93-96 | one converted ring per polygon of the path, in order, the outer polygon first and the holes after it, each a well-formed ring |
| Features.PathToFeature | python/src/wrfcloud/runtime/tools/geojson.py:93-113 | the inner loop's body for a path with polygons: from the converted outer polygon and holes it builds the same feature as `Builder` does for that path, with `fill` equal to the band's colour |
| Features.AssembleFeatures | python/src/wrfcloud/runtime/tools/geojson.py:75-116 | the loop's feature list equals the band-by-band, path-by-path specification `FeaturesOf` |
| Features.FeatureGeometry | python/src/wrfcloud/runtime/tools/geojson.py:92-106 | a feature's coordinate text reads back as one ring per polygon of its path, outer ring first, one pair per vertex |
| Features.FeaturesFrom | python/src/wrfcloud/runtime/tools/geojson.py:78-116 | for any way of building a path's feature from the path and its band's colour, there is one feature per origin (band i, path j), built from that path with band i's colour |
| Features.FeaturesOfConvert | python/src/wrfcloud/runtime/tools/geojson.py:78-116 | the features `convert` assembles: feature k is the `PathFeature` of the path at origin k, and its `fill` is the colour of that path's band |
| Features.OriginsComplete | python/src/wrfcloud/runtime/tools/geojson.py:83-90 | a (band, path) pair is an origin iff the path exists and has polygons: every path with polygons is kept and empty paths are skipped |
| Features.OriginsOrdered | python/src/wrfcloud/runtime/tools/geojson.py:78-83 | origins strictly increase lexicographically: level order, then path order |
| Features.OneFeaturePerPath | python/src/wrfcloud/runtime/tools/geojson.py:86-116 | a path with polygons has exactly one feature, at one position; a path without polygons has none |
| Grid.OneDToTwoD | python/src/wrfcloud/runtime/tools/geojson.py:171-183 | `range` fails exactly when x == 0; for x > 0, max(y, 0) rows, row k is `data[k*x:(k+1)*x]`, and the rows concatenate to the data prefix they cover; with `len(data) >= x*y` these are y rows of x values concatenating to `data[:x*y]` |
| Grid.PositiveRows | python/src/wrfcloud/runtime/tools/geojson.py:179-181 | for x > 0 the rows are the clamped slices at the multiples of x |
| Grid.FullRows | python/src/wrfcloud/runtime/tools/geojson.py:179-183 | with enough data every row has exactly x values and the rows concatenate to `data[:x*y]` |
| Products.OutFileName | python/src/wrfcloud/runtime/tools/geojson.py:318-319 | the name starts with `{wrf_file}_{variable}` and ends with `.geojson.gz` |
| Products.ZLevelsOf | python/src/wrfcloud/runtime/tools/geojson.py:316 | the listed levels, or the single level None when the product has no `z_levels` |
| Products.TaskFor | python/src/wrfcloud/runtime/tools/geojson.py:318-320 | the conversion planned for one product and level: a converter for the product's variable in this file type at that level, writing a file whose name ends in `.geojson.gz` |
| Products.TaskForLevel | python/src/wrfcloud/runtime/tools/geojson.py:318-320 | the level of a planned conversion is read back from its output file name |
| Products.OutFileNameRoundTrip | python/src/wrfcloud/runtime/tools/geojson.py:318-319 | the level (or its absence) can be read back from the output file name |
| Products.OutFileNamesDistinct | python/src/wrfcloud/runtime/tools/geojson.py:316-319 | different levels of one variable get different output files |
| Products.FirstMissing | python/src/wrfcloud/runtime/tools/geojson.py:311-312 | the first product without an entry for the file type: every earlier product has one |
| Products.PlanProducts | python/src/wrfcloud/runtime/tools/geojson.py:311-322 | the loop plans exactly `AllTasks` of the products before the first missing entry, and reports that position as the KeyError |
| Products.TaskCount | python/src/wrfcloud/runtime/tools/geojson.py:311-322 | the number of conversions is the sum over products of their level counts |
| Products.TaskOrder | python/src/wrfcloud/runtime/tools/geojson.py:311-322 | level k of product i is planned at position (levels of earlier products) + k: product order, then level order |
| Products.DefaultLevel | python/src/wrfcloud/runtime/tools/geojson.py:316-319 | a product without `z_levels` yields one conversion, with no level, written to `{wrf_file}_{variable}.geojson.gz` |
| Products.ProductOutFiles | python/src/wrfcloud/runtime/tools/geojson.py:316-319 | every output file ends in `.geojson.gz`, and distinct levels of a product write distinct files |
| Converter.ReadRequestFor | python/src/wrfcloud/runtime/tools/geojson.py:59-65 | a read happens exactly for `grib2` and `netcdf` |
| Converter.SelectsLevel | python/src/wrfcloud/runtime/tools/geojson.py:145 | Python's truth value of a level, as lines 145 and 160 test it: false exactly for None and 0 |
| Converter.LevelSelection | python/src/wrfcloud/runtime/tools/geojson.py:135-168 | a level of None or 0 reads the 2-D field at time 0 (NetCDF) or GRIB message 0; any other level reads that level or that message |
| Converter.OnlyKnownTypesConvert | python/src/wrfcloud/runtime/tools/geojson.py:59-71 | conversion stops with no document exactly for unknown file types, and `range` raises exactly for a zero interval of a known type |
| Converter.ConvertProducesFeatures | python/src/wrfcloud/runtime/tools/geojson.py:67-133 | with a known type and a non-zero interval, the document holds the features of the contour set at `Levels`; it is returned without an output file and written to the file otherwise |
| Converter.DocumentOf | python/src/wrfcloud/runtime/tools/geojson.py:72-122 | the document holds one feature per contour path with polygons, each filled with its band's colour |
| Converter.ConvertOutcome | python/src/wrfcloud/runtime/tools/geojson.py:59-126 | an unknown file type stops with no document; for a known type `range` raises exactly for a zero interval; otherwise the document is returned exactly when there is no output file, and written to that file when there is one |
| Converter.GeoJson.constructor | python/src/wrfcloud/runtime/tools/geojson.py:24-47 | the converter keeps its arguments, and the latitude and longitude grids start unset |
| Converter.GeoJson.Convert | python/src/wrfcloud/runtime/tools/geojson.py:49-133 | the outcome is `ConvertOutcome`; the stored grids are unchanged for an unknown type and are those read otherwise |
| Converter.ManualProduct | python/src/wrfcloud/runtime/tools/geojson.py:277-293 | runs one conversion and prints the document exactly when one was returned, which happens only without an output file |
| Converter.CliZLevel | python/src/wrfcloud/runtime/tools/geojson.py:264 | a missing level or a level of 0 becomes None; any other level is kept |
| Converter.CliOutFile | python/src/wrfcloud/runtime/tools/geojson.py:262 | a missing or empty output path becomes None; any other path is kept |
| Converter.CliZLevelReadsSame | python/src/wrfcloud/runtime/tools/geojson.py:264 | mapping 0 to None on the command line does not change what the readers select |

## Left out

- Reading NetCDF and GRIB2 through `netCDF4` and `pygrib` (lines 135-168) is the `Env.read` parameter. The model keeps which variable, time and level or message is requested. It leaves out the `- 360` longitude shift and negative-index behaviour of the libraries.
- `pyplot.contourf` and `colors.rgb2hex` (lines 72, 80) are the `Env.contourf` parameter. It yields, per level band, the colour already as text, and the paths' polygons.
- ConvertOutcome: the `ValueError`s that `pyplot.contourf` raises itself are not modelled, because `Env.contourf` is total. It raises for fewer than two levels, which covers every range with min10 >= max10 and every single-level range. It also raises for levels that do not increase, which covers a negative interval with two or more levels. In these cases the model returns a document.
- `_grid_to_lonlat` (lines 185-212) is floating-point bilinear interpolation with rounding. It is the `Env.gridToLonLat` parameter, applied to the stored latitude and longitude grids.
- Float printing by `str` is the parameter `fmt`. The parse-back lemmas assume only that a printed number contains none of `[`, `]`, `,` or a space, which holds of Python's float repr.
- The float scaling `int(x * 10)` (lines 68-70) and the division `i / 10` of each level: the model takes the range and the interval already in integer tenths, and keeps the levels in tenths.
- `value_range[0]`, `value_range[1]` (lines 44-45): the model takes the minimum and maximum as separate values. A list too short to index is not modelled.
- `json.loads` of the serialised text (line 106): the feature keeps the coordinate text itself. The parse-back lemmas state what that text contains.
- `json.dumps`, gzip compression and file writing (lines 129-132) are the `Written` outcome, which carries the path and the document.
- Printing the document in `_manual_product` (line 293) is the `printed` result.
- Logging is left out.
- The process pool and `future.result()` (lines 307, 321-325) are concurrency. `PlanProducts` models the conversions submitted, in submission order, not their execution.
- Loading the product list from YAML (lines 303-304) is left out. The products are a parameter. Of the product keys, only a missing file-type entry is modelled as an error. `range`, `contour_interval` and `palette` are assumed present.
- Argument parsing, and `main`'s choice between `_manual_product` and `_automate_products` (lines 243-274), are left out. The model keeps the two normalisations `or None` of lines 262 and 264.
- The `self.grid` field (line 41) is never written by the source and is not modelled.
- OneDToTwoD: `MaskedArray(data2d, ndmin=2)` (line 183) is not modelled; the method returns the list of rows. Current numpy rejects rows of different lengths, which happens when `len(data) < x*y`; the model returns the shorter last rows instead of that error.
- `setup.py` (packaging metadata) and the run orchestration of the runtime are not part of this model.
