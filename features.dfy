/** The feature-assembly loop of `GeoJson.convert`: every contour band of the
    contour set, every path of the band, and for each path with at least one
    polygon one GeoJSON Feature whose MultiPolygon member has the path's first
    polygon as outer ring and the others as holes, filled with the band's colour. */
module Features {

  import opened Wrappers
  import MultiPolygon

  /** A polygon vertex in grid coordinates (column x, row y), as `to_polygons()`
      gives it. */
  datatype GridPoint = GridPoint(x: real, y: real)

  type GridPolygon = seq<GridPoint>

  /** One contour path: what `path.to_polygons()` returns, the outer polygon first and
      its holes after it. */
  type ContourPath = seq<GridPolygon>

  /** One entry of the contour set's collections: the band's colour (the hex text of
      its first colour) and its paths. */
  datatype ContourBand = ContourBand(color: string, paths: seq<ContourPath>)

  /** A GeoJSON Feature of type MultiPolygon: the coordinate text the serialiser
      produced for it and its `fill` property. */
  datatype Feature = Feature(coordinates: string, fill: string)

  datatype FeatureCollection = FeatureCollection(features: seq<Feature>)

  /** `(lon, lat)` of a grid position: `_grid_to_lonlat` with the latitude and
      longitude grids fixed. */
  type GridToLonLat = (real, real) -> (real, real)

  /** `_polygon_to_coord_array`: each grid vertex replaced by `[lon, lat]`. */
  function CoordArray(lonLat: GridToLonLat, polygon: GridPolygon): (r: MultiPolygon.Ring)
    ensures |r| == |polygon|
    ensures MultiPolygon.WellFormedRing(r)
  {
    seq(|polygon|, i requires 0 <= i < |polygon| =>
      var ll := lonLat(polygon[i].x, polygon[i].y); [ll.0, ll.1])
  }

  /** `_polygon_to_coord_array` as the source writes it: a loop that appends the
      converted vertex of each grid vertex, in order. */
  method PolygonToCoordArray(lonLat: GridToLonLat, polygon: GridPolygon) returns (points: MultiPolygon.Ring)
    ensures |points| == |polygon|
    ensures forall i :: 0 <= i < |polygon| ==>
      points[i] == [lonLat(polygon[i].x, polygon[i].y).0, lonLat(polygon[i].x, polygon[i].y).1]
    ensures points == CoordArray(lonLat, polygon)
  {
    points := [];
    for i := 0 to |polygon|
      invariant points == CoordArray(lonLat, polygon[..i])
    {
      var ll := lonLat(polygon[i].x, polygon[i].y);
      assert CoordArray(lonLat, polygon[..i + 1]) == CoordArray(lonLat, polygon[..i]) + [[ll.0, ll.1]];
      points := points + [[ll.0, ll.1]];
    }
    assert polygon[..|polygon|] == polygon;
  }

  /** The converted rings of a path: the outer polygon, then the holes. */
  function CoordRings(lonLat: GridToLonLat, polygons: seq<GridPolygon>): (r: seq<MultiPolygon.Ring>)
    ensures |r| == |polygons|
    ensures forall k :: 0 <= k < |polygons| ==> r[k] == CoordArray(lonLat, polygons[k])
    ensures MultiPolygon.WellFormedRings(r)
  {
    seq(|polygons|, k requires 0 <= k < |polygons| => CoordArray(lonLat, polygons[k]))
  }

  /** The feature built for a path that has at least one polygon. */
  function PathFeature(lonLat: GridToLonLat, fmt: real -> string, path: ContourPath, color: string): Feature
  {
    Feature(MultiPolygon.MultiPolygonText(fmt, CoordRings(lonLat, path)), color)
  }

  /** The coordinate text of a path's feature reads back as the path's polygons, in
      order, the first being the outer ring: one ring per polygon, one `[lon, lat]`
      per vertex. */
  lemma FeatureGeometry(lonLat: GridToLonLat, fmt: real -> string, path: ContourPath, color: string)
    requires MultiPolygon.NumberFormat(fmt)
    requires |path| > 0
    ensures var parsed := MultiPolygon.ParseMultiPolygon(PathFeature(lonLat, fmt, path, color).coordinates);
      && parsed.Some?
      && |parsed.value| == |path|
      && (forall k :: 0 <= k < |path| ==> |parsed.value[k]| == |path[k]|)
      && parsed.value == MultiPolygon.AllCoordinates(fmt, CoordRings(lonLat, path))
  {
    MultiPolygon.MultiPolygonRoundTrip(fmt, CoordRings(lonLat, path));
  }

  /** How a path with polygons becomes a feature, given its band's colour. The walk
      over bands and paths below is stated for any such builder, so that reasoning
      about the walk never has to look inside the serialiser. */
  type FeatureBuilder = (ContourPath, string) -> Feature

  /** The builder `convert` uses: `PathFeature` on the given grids and float printer. */
  function Builder(lonLat: GridToLonLat, fmt: real -> string): FeatureBuilder
  {
    (path: ContourPath, color: string) => PathFeature(lonLat, fmt, path, color)
  }

  /** What one path contributes: nothing when it has no polygons, else its feature. */
  function PathFeatures(build: FeatureBuilder, path: ContourPath, color: string): seq<Feature>
  {
    if |path| == 0 then [] else [build(path, color)]
  }

  /** The features of one band's paths, in path order. */
  function BandFeatures(build: FeatureBuilder, color: string, paths: seq<ContourPath>): seq<Feature>
  {
    if |paths| == 0 then []
    else BandFeatures(build, color, paths[..|paths| - 1]) + PathFeatures(build, paths[|paths| - 1], color)
  }

  /** The features of a whole contour set, band by band. */
  function FeaturesOf(build: FeatureBuilder, bands: seq<ContourBand>): seq<Feature>
  {
    if |bands| == 0 then []
    else
      var last := bands[|bands| - 1];
      FeaturesOf(build, bands[..|bands| - 1]) + BandFeatures(build, last.color, last.paths)
  }

  /** The loop of `convert` that builds the feature list: for each band, for each path,
      skip a path without polygons, else convert its outer polygon and its holes,
      serialise them and append the feature. */
  method AssembleFeatures(lonLat: GridToLonLat, fmt: real -> string, bands: seq<ContourBand>)
    returns (features: seq<Feature>)
    ensures features == FeaturesOf(Builder(lonLat, fmt), bands)
  {
    ghost var build := Builder(lonLat, fmt);
    features := [];
    for i := 0 to |bands|
      invariant features == FeaturesOf(build, bands[..i])
    {
      var levelColor := bands[i].color;
      var paths := bands[i].paths;
      ghost var before := features;
      for j := 0 to |paths|
        invariant features == before + BandFeatures(build, levelColor, paths[..j])
      {
        PathStep(build, levelColor, paths, j);
        var pathPolygons := paths[j];
        if |pathPolygons| == 0 {
          continue;
        }
        var outerPolygon := PolygonToCoordArray(lonLat, pathPolygons[0]);
        var holes := CoordRings(lonLat, pathPolygons[1..]);
        var feature := PathToFeature(lonLat, fmt, pathPolygons, outerPolygon, holes, levelColor);
        features := features + [feature];
      }
      assert paths[..|paths|] == paths;
      BandStep(build, bands, i);
    }
    assert bands[..|bands|] == bands;
  }

  /** One turn of the inner loop: path j's features follow those of the paths before it. */
  lemma PathStep(build: FeatureBuilder, color: string, paths: seq<ContourPath>, j: nat)
    requires j < |paths|
    ensures BandFeatures(build, color, paths[..j + 1])
         == BandFeatures(build, color, paths[..j]) + PathFeatures(build, paths[j], color)
  {
    assert paths[..j + 1][..j] == paths[..j];
  }

  /** One turn of the outer loop: band i's features follow those of the bands before it. */
  lemma BandStep(build: FeatureBuilder, bands: seq<ContourBand>, i: nat)
    requires i < |bands|
    ensures FeaturesOf(build, bands[..i + 1])
         == FeaturesOf(build, bands[..i]) + BandFeatures(build, bands[i].color, bands[i].paths)
  {
    assert bands[..i + 1][..i] == bands[..i];
  }

  /** The body of the inner loop for a path with polygons: serialise the converted
      outer polygon and holes and make the feature. */
  method PathToFeature(lonLat: GridToLonLat, fmt: real -> string, path: ContourPath,
                       outerPolygon: MultiPolygon.Ring, holes: seq<MultiPolygon.Ring>, color: string)
    returns (feature: Feature)
    requires |path| > 0
    requires outerPolygon == CoordArray(lonLat, path[0]) && holes == CoordRings(lonLat, path[1..])
    ensures feature == Builder(lonLat, fmt)(path, color)
    ensures feature.fill == color
  {
    assert [outerPolygon] + holes == CoordRings(lonLat, path);
    var polygonString := MultiPolygon.PolygonAndHolesToMultiPolygon(fmt, outerPolygon, holes);
    feature := Feature(polygonString.value, color);
  }

  // ---------------------------------------------------------------------------
  // Which feature comes from which path
  // ---------------------------------------------------------------------------

  /** The (band, path) positions of the paths of band `i` that have polygons, in
      path order. */
  function PathOrigins(i: nat, paths: seq<ContourPath>): seq<(nat, nat)>
  {
    if |paths| == 0 then []
    else
      PathOrigins(i, paths[..|paths| - 1])
      + (if |paths[|paths| - 1]| > 0 then [(i, |paths| - 1)] else [])
  }

  /** The (band, path) positions of all paths that have polygons, band by band. */
  function Origins(bands: seq<ContourBand>): seq<(nat, nat)>
  {
    if |bands| == 0 then []
    else Origins(bands[..|bands| - 1]) + PathOrigins(|bands| - 1, bands[|bands| - 1].paths)
  }

  /** Strict lexicographic order on positions. */
  predicate Before(p: (nat, nat), q: (nat, nat))
  {
    p.0 < q.0 || (p.0 == q.0 && p.1 < q.1)
  }

  /** Position `o` names a path of some band, and that path has polygons. */
  predicate HasPolygons(bands: seq<ContourBand>, o: (nat, nat))
  {
    o.0 < |bands| && o.1 < |bands[o.0].paths| && |bands[o.0].paths[o.1]| > 0
  }

  /** The feature the path at position `o` yields, in its band's colour. */
  function FeatureAt(build: FeatureBuilder, bands: seq<ContourBand>, o: (nat, nat)): Feature
    requires HasPolygons(bands, o)
  {
    build(bands[o.0].paths[o.1], bands[o.0].color)
  }

  /** Every origin of a band names a path of that band that has polygons. */
  lemma {:induction false} PathOriginsValid(i: nat, paths: seq<ContourPath>)
    ensures forall k :: 0 <= k < |PathOrigins(i, paths)| ==>
      PathOrigins(i, paths)[k].0 == i && PathOrigins(i, paths)[k].1 < |paths| && |paths[PathOrigins(i, paths)[k].1]| > 0
  {
    if |paths| > 0 {
      var prefix := paths[..|paths| - 1];
      PathOriginsValid(i, prefix);
      var os := PathOrigins(i, paths);
      assert forall k :: 0 <= k < |PathOrigins(i, prefix)| ==> os[k] == PathOrigins(i, prefix)[k];
      assert forall n :: 0 <= n < |prefix| ==> paths[n] == prefix[n];
    }
  }

  /** Every origin names a path that has polygons. */
  lemma {:induction false} OriginsValid(bands: seq<ContourBand>)
    ensures forall k :: 0 <= k < |Origins(bands)| ==> HasPolygons(bands, Origins(bands)[k])
  {
    if |bands| > 0 {
      var n := |bands| - 1;
      var prefix := bands[..n];
      OriginsValid(prefix);
      PathOriginsValid(n, bands[n].paths);
      var os1, os2 := Origins(prefix), PathOrigins(n, bands[n].paths);
      var os := Origins(bands);
      assert os == os1 + os2;
      forall k | 0 <= k < |os| ensures HasPolygons(bands, os[k]) {
        if k < |os1| {
          assert os[k] == os1[k] && HasPolygons(prefix, os1[k]);
          assert prefix[os1[k].0] == bands[os1[k].0];
        } else {
          assert os[k] == os2[k - |os1|];
        }
      }
    }
  }

  lemma {:induction false} BandFeaturesFrom(build: FeatureBuilder, color: string, i: nat, paths: seq<ContourPath>)
    ensures var fs, os := BandFeatures(build, color, paths), PathOrigins(i, paths);
      && |fs| == |os|
      && forall k :: 0 <= k < |os| ==> os[k].1 < |paths| && fs[k] == build(paths[os[k].1], color)
  {
    if |paths| > 0 {
      var prefix := paths[..|paths| - 1];
      BandFeaturesFrom(build, color, i, prefix);
      var os := PathOrigins(i, paths);
      assert forall k :: 0 <= k < |PathOrigins(i, prefix)| ==> os[k] == PathOrigins(i, prefix)[k];
      assert forall n :: 0 <= n < |prefix| ==> paths[n] == prefix[n];
    }
  }

  /** Feature k is the feature of the path at position `Origins(bands)[k]`, a path
      that has polygons, built in the colour of its band. */
  lemma {:induction false} FeaturesFrom(build: FeatureBuilder, bands: seq<ContourBand>)
    ensures var fs, os := FeaturesOf(build, bands), Origins(bands);
      && |fs| == |os|
      && forall k :: 0 <= k < |os| ==> HasPolygons(bands, os[k]) && fs[k] == FeatureAt(build, bands, os[k])
  {
    OriginsValid(bands);
    if |bands| > 0 {
      var n := |bands| - 1;
      var prefix := bands[..n];
      var last := bands[n];
      FeaturesFrom(build, prefix);
      BandFeaturesFrom(build, last.color, n, last.paths);
      PathOriginsValid(n, last.paths);
      var fs1, os1 := FeaturesOf(build, prefix), Origins(prefix);
      var fs2, os2 := BandFeatures(build, last.color, last.paths), PathOrigins(n, last.paths);
      var fs, os := FeaturesOf(build, bands), Origins(bands);
      assert fs == fs1 + fs2 && os == os1 + os2;
      forall k | 0 <= k < |os| ensures fs[k] == FeatureAt(build, bands, os[k]) {
        if k < |os1| {
          assert os[k] == os1[k] && fs[k] == fs1[k];
          assert prefix[os1[k].0] == bands[os1[k].0];
        } else {
          assert os[k] == os2[k - |os1|] && fs[k] == fs2[k - |os1|];
        }
      }
    }
  }

  /** The features `convert` assembles: feature k comes from the path at
      `Origins(bands)[k]`, is that path's `PathFeature`, and is filled with the colour
      of the path's band. */
  lemma FeaturesOfConvert(lonLat: GridToLonLat, fmt: real -> string, bands: seq<ContourBand>)
    ensures var fs, os := FeaturesOf(Builder(lonLat, fmt), bands), Origins(bands);
      && |fs| == |os|
      && forall k :: 0 <= k < |os| ==>
           && HasPolygons(bands, os[k])
           && fs[k] == PathFeature(lonLat, fmt, bands[os[k].0].paths[os[k].1], bands[os[k].0].color)
           && fs[k].fill == bands[os[k].0].color
  {
    FeaturesFrom(Builder(lonLat, fmt), bands);
  }

  lemma {:induction false} PathOriginsComplete(i: nat, paths: seq<ContourPath>, j: nat)
    requires j < |paths| && |paths[j]| > 0
    ensures (i, j) in PathOrigins(i, paths)
  {
    var prefix := paths[..|paths| - 1];
    if j < |paths| - 1 {
      assert prefix[j] == paths[j];
      PathOriginsComplete(i, prefix, j);
    }
  }

  /** Every path that has polygons is an origin. */
  lemma {:induction false} OriginsInclude(bands: seq<ContourBand>, i: nat, j: nat)
    requires i < |bands| && j < |bands[i].paths| && |bands[i].paths[j]| > 0
    ensures (i, j) in Origins(bands)
  {
    var n := |bands| - 1;
    if i < n {
      assert bands[..n][i] == bands[i];
      OriginsInclude(bands[..n], i, j);
    } else {
      PathOriginsComplete(n, bands[n].paths, j);
    }
  }

  /** A (band, path) position yields a feature exactly when the path exists and has
      polygons: every such path is kept, and every path without polygons is skipped. */
  lemma OriginsComplete(bands: seq<ContourBand>, i: nat, j: nat)
    ensures (i, j) in Origins(bands) <==> HasPolygons(bands, (i, j))
  {
    OriginsValid(bands);
    if HasPolygons(bands, (i, j)) {
      OriginsInclude(bands, i, j);
    }
  }

  lemma {:induction false} PathOriginsOrdered(i: nat, paths: seq<ContourPath>)
    ensures forall a, b :: 0 <= a < b < |PathOrigins(i, paths)| ==> PathOrigins(i, paths)[a].1 < PathOrigins(i, paths)[b].1
  {
    if |paths| > 0 {
      var prefix := paths[..|paths| - 1];
      PathOriginsOrdered(i, prefix);
      PathOriginsValid(i, prefix);
      var os1, os := PathOrigins(i, prefix), PathOrigins(i, paths);
      forall a, b | 0 <= a < b < |os| ensures os[a].1 < os[b].1 {
        assert os[a] == os1[a] && os1[a].1 < |prefix|;
        if b < |os1| {
          assert os[b] == os1[b];
        } else {
          assert os[b] == (i, |prefix|);
        }
      }
    }
  }

  /** Features come in band order, and within a band in path order. */
  lemma {:induction false} OriginsOrdered(bands: seq<ContourBand>)
    ensures forall a, b :: 0 <= a < b < |Origins(bands)| ==> Before(Origins(bands)[a], Origins(bands)[b])
  {
    if |bands| > 0 {
      var n := |bands| - 1;
      var prefix := bands[..n];
      OriginsOrdered(prefix);
      PathOriginsOrdered(n, bands[n].paths);
      OriginsValid(prefix);
      PathOriginsValid(n, bands[n].paths);
      var os1, os2 := Origins(prefix), PathOrigins(n, bands[n].paths);
      var os := Origins(bands);
      assert os == os1 + os2;
      forall a, b | 0 <= a < b < |os| ensures Before(os[a], os[b]) {
        if b < |os1| {
          assert os[a] == os1[a] && os[b] == os1[b];
        } else if a < |os1| {
          assert os[a] == os1[a] && os[b] == os2[b - |os1|];
          assert HasPolygons(prefix, os1[a]) && os2[b - |os1|].0 == n;
        } else {
          assert os[a] == os2[a - |os1|] && os[b] == os2[b - |os1|];
        }
      }
    }
  }

  /** Exactly one feature per path that has polygons, and none for a path without:
      a position appears among the origins once if its path has polygons and never
      otherwise. */
  lemma OneFeaturePerPath(bands: seq<ContourBand>, i: nat, j: nat)
    ensures var os := Origins(bands);
      (i, j) in os <==> i < |bands| && j < |bands[i].paths| && |bands[i].paths[j]| > 0
    ensures var os := Origins(bands);
      forall a, b :: 0 <= a < |os| && 0 <= b < |os| && os[a] == os[b] ==> a == b
  {
    var os := Origins(bands);
    OriginsValid(bands);
    OriginsOrdered(bands);
    OriginsComplete(bands, i, j);
    forall a, b | 0 <= a < b < |os| ensures os[a] != os[b] {
      assert Before(os[a], os[b]);
    }
  }
}
