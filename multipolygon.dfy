/** `_polygon_and_holes_to_multi_polygon`: the text of the coordinates of one GeoJSON
    MultiPolygon member, built from an outer ring and its holes, and a parser for
    that text that recovers the rings from it. Points are Python lists of floats;
    only their first two components (longitude, latitude) are written. How `str`
    prints one float is the parameter `fmt`. */
module MultiPolygon {

  import opened Wrappers
  import Python

  /** One point: `[lon, lat]`, possibly with further components. */
  type Point = seq<real>

  /** A ring: the points of one closed polygon outline, in order. */
  type Ring = seq<Point>

  /** A point has the two components the serialiser reads; a shorter one makes
      `point[1]` raise IndexError. */
  predicate HasLonLat(p: Point) { |p| >= 2 }

  predicate WellFormedRing(ring: Ring)
  {
    forall i :: 0 <= i < |ring| ==> HasLonLat(ring[i])
  }

  predicate WellFormedRings(rings: seq<Ring>)
  {
    forall k :: 0 <= k < |rings| ==> WellFormedRing(rings[k])
  }

  /** `str([point[0], point[1]])`. */
  function PointText(fmt: real -> string, p: Point): string
    requires HasLonLat(p)
  {
    Python.ListRepr([fmt(p[0]), fmt(p[1])])
  }

  function PointTexts(fmt: real -> string, ring: Ring): (r: seq<string>)
    requires WellFormedRing(ring)
    ensures |r| == |ring|
    ensures forall i :: 0 <= i < |ring| ==> r[i] == PointText(fmt, ring[i])
  {
    seq(|ring|, i requires 0 <= i < |ring| => PointText(fmt, ring[i]))
  }

  /** `str([[point[0], point[1]] for point in ring])`. */
  function RingText(fmt: real -> string, ring: Ring): string
    requires WellFormedRing(ring)
  {
    Python.ListRepr(PointTexts(fmt, ring))
  }

  /** A ring prints as a bracketed list, `[]` exactly for a ring without points. */
  lemma RingTextShape(fmt: real -> string, ring: Ring)
    requires WellFormedRing(ring)
    ensures var r := RingText(fmt, ring); |r| >= 2 && r[0] == '[' && r[|r| - 1] == ']'
    ensures RingText(fmt, ring) == "[]" <==> ring == []
  {
    var texts := PointTexts(fmt, ring);
    Python.ListReprShape(texts);
    if ring != [] {
      assert Python.Join(", ", texts) == texts[0] + Python.Prefixed(", ", texts[1..]);
      assert |RingText(fmt, ring)| > 2;
    }
  }

  function RingTexts(fmt: real -> string, rings: seq<Ring>): (r: seq<string>)
    requires WellFormedRings(rings)
    ensures |r| == |rings|
    ensures forall k :: 0 <= k < |rings| ==> r[k] == RingText(fmt, rings[k])
  {
    seq(|rings|, k requires 0 <= k < |rings| => RingText(fmt, rings[k]))
  }

  /** The serialiser's result for rings `[outer] + holes`: the ring texts joined by
      a bare comma, in brackets. */
  function MultiPolygonText(fmt: real -> string, rings: seq<Ring>): string
    requires WellFormedRings(rings)
  {
    "[" + Python.Join(",", RingTexts(fmt, rings)) + "]"
  }

  lemma WellFormedCons(ring: Ring, rings: seq<Ring>)
    ensures WellFormedRings([ring] + rings) <==> WellFormedRing(ring) && WellFormedRings(rings)
  {
    var all := [ring] + rings;
    assert all[0] == ring;
    assert forall k :: 0 <= k < |rings| ==> all[k + 1] == rings[k];
  }

  lemma WellFormedTail(rings: seq<Ring>)
    requires |rings| > 0 && WellFormedRings(rings)
    ensures WellFormedRing(rings[0]) && WellFormedRings(rings[1..])
  {
    assert rings == [rings[0]] + rings[1..];
    WellFormedCons(rings[0], rings[1..]);
  }

  /** The rings' texts after the first, each after a comma. */
  lemma MultiPolygonTextCons(fmt: real -> string, ring: Ring, rings: seq<Ring>)
    requires WellFormedRing(ring) && WellFormedRings(rings)
    ensures WellFormedRings([ring] + rings)
    ensures MultiPolygonText(fmt, [ring] + rings)
         == "[" + (RingText(fmt, ring) + Python.Prefixed(",", RingTexts(fmt, rings))) + "]"
  {
    WellFormedCons(ring, rings);
    var texts := RingTexts(fmt, [ring] + rings);
    assert texts[0] == RingText(fmt, ring);
    assert texts[1..] == RingTexts(fmt, rings);
    assert Python.Join(",", texts) == texts[0] + Python.Prefixed(",", texts[1..]);
  }

  lemma RingTextsSnoc(fmt: real -> string, rings: seq<Ring>, ring: Ring)
    requires WellFormedRings(rings) && WellFormedRing(ring)
    ensures WellFormedRings(rings + [ring])
    ensures RingTexts(fmt, rings + [ring]) == RingTexts(fmt, rings) + [RingText(fmt, ring)]
  {
    var all := rings + [ring];
    assert forall k :: 0 <= k < |rings| ==> all[k] == rings[k];
    assert all[|rings|] == ring;
  }

  lemma MalformedHole(polygon: Ring, holes: seq<Ring>, h: nat)
    requires h < |holes| && !WellFormedRing(holes[h])
    ensures !WellFormedRings([polygon] + holes)
  {
    assert ([polygon] + holes)[h + 1] == holes[h];
  }

  /** One turn of the serialiser's loop: `mp_str += ',' + str(hole)`. */
  lemma {:induction false} HoleStep(fmt: real -> string, polygon: Ring, holes: seq<Ring>, h: nat, mpText: string)
    requires h < |holes| && WellFormedRing(polygon) && WellFormedRings(holes[..h]) && WellFormedRing(holes[h])
    requires mpText == RingText(fmt, polygon) + Python.Prefixed(",", RingTexts(fmt, holes[..h]))
    ensures WellFormedRings(holes[..h + 1])
    ensures mpText + "," + RingText(fmt, holes[h])
         == RingText(fmt, polygon) + Python.Prefixed(",", RingTexts(fmt, holes[..h + 1]))
  {
    assert holes[..h + 1] == holes[..h] + [holes[h]];
    RingTextsSnoc(fmt, holes[..h], holes[h]);
    Python.PrefixedSnoc(",", RingTexts(fmt, holes[..h]), RingText(fmt, holes[h]));
  }

  /** The serialiser, as the source writes it: the outer ring's text, then for each
      hole in turn a comma and that hole's text, all in brackets. `None` is the
      IndexError a point with fewer than two components raises. */
  method PolygonAndHolesToMultiPolygon(fmt: real -> string, polygon: Ring, holes: seq<Ring>)
    returns (r: Option<string>)
    ensures r.Some? <==> WellFormedRings([polygon] + holes)
    ensures r.Some? ==> r.value == MultiPolygonText(fmt, [polygon] + holes)
    ensures r.Some? && |holes| == 0 ==> r.value == "[" + RingText(fmt, polygon) + "]"
  {
    WellFormedCons(polygon, holes);
    if !WellFormedRing(polygon) {
      return None;
    }
    var mpText := RingText(fmt, polygon);
    for h := 0 to |holes|
      invariant WellFormedRings(holes[..h])
      invariant mpText == RingText(fmt, polygon) + Python.Prefixed(",", RingTexts(fmt, holes[..h]))
    {
      if !WellFormedRing(holes[h]) {
        MalformedHole(polygon, holes, h);
        return None;
      }
      HoleStep(fmt, polygon, holes, h, mpText);
      mpText := mpText + "," + RingText(fmt, holes[h]);
    }
    assert holes[..|holes|] == holes;
    SerialiserResult(fmt, polygon, holes);
    r := Some("[" + mpText + "]");
  }

  /** Where the serialiser's loop ends: the outer ring's text followed by every hole's
      text after a comma, in brackets, is the MultiPolygon text of all the rings, and
      just the outer ring's text in brackets when there are no holes. */
  lemma SerialiserResult(fmt: real -> string, polygon: Ring, holes: seq<Ring>)
    requires WellFormedRing(polygon) && WellFormedRings(holes)
    ensures WellFormedRings([polygon] + holes)
    ensures "[" + (RingText(fmt, polygon) + Python.Prefixed(",", RingTexts(fmt, holes))) + "]"
         == MultiPolygonText(fmt, [polygon] + holes)
    ensures |holes| == 0 ==> MultiPolygonText(fmt, [polygon] + holes) == "[" + RingText(fmt, polygon) + "]"
  {
    MultiPolygonTextCons(fmt, polygon, holes);
    if |holes| == 0 {
      assert Python.Prefixed(",", RingTexts(fmt, holes)) == "";
      assert RingText(fmt, polygon) + "" == RingText(fmt, polygon);
    }
  }

  // ---------------------------------------------------------------------------
  // Reading the text back
  // ---------------------------------------------------------------------------

  /** Characters that can appear in the text of one number: anything but the
      brackets, the comma and the space the list syntax uses. */
  predicate IsNumberChar(c: char) { c != '[' && c != ']' && c != ',' && c != ' ' }

  predicate IsNumberText(t: string)
  {
    |t| > 0 && forall i :: 0 <= i < |t| ==> IsNumberChar(t[i])
  }

  /** `str` of a float prints digits, signs, a point, an exponent, `nan` or `inf`:
      never empty and never a list delimiter. */
  ghost predicate NumberFormat(fmt: real -> string)
  {
    forall x :: IsNumberText(fmt(x))
  }

  lemma NumberFormatAt(fmt: real -> string, x: real)
    requires NumberFormat(fmt)
    ensures IsNumberText(fmt(x))
  {
  }

  /** The coordinates a ring's text carries: the printed first two components of each
      of its points. */
  function RingCoordinates(fmt: real -> string, ring: Ring): (r: seq<(string, string)>)
    requires WellFormedRing(ring)
    ensures |r| == |ring|
    ensures forall i :: 0 <= i < |ring| ==> r[i] == (fmt(ring[i][0]), fmt(ring[i][1]))
  {
    seq(|ring|, i requires 0 <= i < |ring| => (fmt(ring[i][0]), fmt(ring[i][1])))
  }

  function AllCoordinates(fmt: real -> string, rings: seq<Ring>): (r: seq<seq<(string, string)>>)
    requires WellFormedRings(rings)
    ensures |r| == |rings|
    ensures forall k :: 0 <= k < |rings| ==> r[k] == RingCoordinates(fmt, rings[k])
  {
    seq(|rings|, k requires 0 <= k < |rings| => RingCoordinates(fmt, rings[k]))
  }

  lemma AllCoordinatesCons(fmt: real -> string, rings: seq<Ring>)
    requires |rings| > 0 && WellFormedRings(rings)
    ensures WellFormedRings(rings[1..])
    ensures AllCoordinates(fmt, rings) == [RingCoordinates(fmt, rings[0])] + AllCoordinates(fmt, rings[1..])
  {
    WellFormedTail(rings);
  }

  datatype Parsed<T> = Parsed(value: T, rest: string)

  /** The length of the longest prefix of `s` made of number characters. */
  function NumberLength(s: string): (n: nat)
    ensures n <= |s|
    ensures forall i :: 0 <= i < n ==> IsNumberChar(s[i])
    ensures n < |s| ==> !IsNumberChar(s[n])
  {
    if |s| == 0 || !IsNumberChar(s[0]) then 0 else 1 + NumberLength(s[1..])
  }

  function Expect(lit: string, s: string): (r: Option<string>)
    ensures r.Some? ==> |r.value| + |lit| == |s|
  {
    if |lit| <= |s| && s[..|lit|] == lit then Some(s[|lit|..]) else None
  }

  function ParseNumber(s: string): (r: Option<Parsed<string>>)
    ensures r.Some? ==> |r.value.rest| < |s|
  {
    var n := NumberLength(s);
    if n == 0 then None else Some(Parsed(s[..n], s[n..]))
  }

  /** `[a, b]` */
  function ParsePoint(s: string): (r: Option<Parsed<(string, string)>>)
    ensures r.Some? ==> |r.value.rest| < |s|
  {
    var s1 :- Expect("[", s);
    var a :- ParseNumber(s1);
    var s2 :- Expect(", ", a.rest);
    var b :- ParseNumber(s2);
    var s3 :- Expect("]", b.rest);
    Some(Parsed((a.value, b.value), s3))
  }

  /** `(, [a, b])* ]` */
  function ParsePointsTail(s: string): (r: Option<Parsed<seq<(string, string)>>>)
    ensures r.Some? ==> |r.value.rest| < |s|
    decreases |s|
  {
    if |s| > 0 && s[0] == ']' then Some(Parsed([], s[1..]))
    else
      var s1 :- Expect(", ", s);
      var p :- ParsePoint(s1);
      var ps :- ParsePointsTail(p.rest);
      Some(Parsed([p.value] + ps.value, ps.rest))
  }

  /** `[]` or `[[a, b](, [a, b])*]` */
  function ParseRing(s: string): (r: Option<Parsed<seq<(string, string)>>>)
    ensures r.Some? ==> |r.value.rest| < |s|
  {
    var s1 :- Expect("[", s);
    if |s1| > 0 && s1[0] == ']' then Some(Parsed([], s1[1..]))
    else
      var p :- ParsePoint(s1);
      var ps :- ParsePointsTail(p.rest);
      Some(Parsed([p.value] + ps.value, ps.rest))
  }

  /** `(,ring)* ]` */
  function ParseRingsTail(s: string): (r: Option<Parsed<seq<seq<(string, string)>>>>)
    ensures r.Some? ==> |r.value.rest| < |s|
    decreases |s|
  {
    if |s| > 0 && s[0] == ']' then Some(Parsed([], s[1..]))
    else
      var s1 :- Expect(",", s);
      var ring :- ParseRing(s1);
      var rings :- ParseRingsTail(ring.rest);
      Some(Parsed([ring.value] + rings.value, rings.rest))
  }

  /** The rings of a whole MultiPolygon coordinate text, or `None` if it is not one. */
  function ParseMultiPolygon(s: string): Option<seq<seq<(string, string)>>>
  {
    var s1 :- Expect("[", s);
    var ring :- ParseRing(s1);
    var rings :- ParseRingsTail(ring.rest);
    if rings.rest == "" then Some([ring.value] + rings.value) else None
  }

  // ---------------------------------------------------------------------------
  // Round trip
  // ---------------------------------------------------------------------------

  lemma {:induction false} NumberLengthOf(t: string, rest: string)
    requires forall i :: 0 <= i < |t| ==> IsNumberChar(t[i])
    requires |rest| == 0 || !IsNumberChar(rest[0])
    ensures NumberLength(t + rest) == |t|
  {
    if |t| > 0 {
      assert (t + rest)[1..] == t[1..] + rest;
      NumberLengthOf(t[1..], rest);
    } else {
      assert t + rest == rest;
    }
  }

  lemma NumberRoundTrip(t: string, rest: string)
    requires IsNumberText(t)
    requires |rest| == 0 || !IsNumberChar(rest[0])
    ensures ParseNumber(t + rest) == Some(Parsed(t, rest))
  {
    NumberLengthOf(t, rest);
    assert (t + rest)[..|t|] == t;
    assert (t + rest)[|t|..] == rest;
  }

  lemma ExpectRoundTrip(lit: string, rest: string)
    ensures Expect(lit, lit + rest) == Some(rest)
  {
    assert (lit + rest)[..|lit|] == lit;
    assert (lit + rest)[|lit|..] == rest;
  }

  lemma PointRoundTrip(fmt: real -> string, p: Point, rest: string)
    requires NumberFormat(fmt)
    requires HasLonLat(p)
    ensures ParsePoint(PointText(fmt, p) + rest) == Some(Parsed((fmt(p[0]), fmt(p[1])), rest))
  {
    var a, b := fmt(p[0]), fmt(p[1]);
    NumberFormatAt(fmt, p[0]);
    NumberFormatAt(fmt, p[1]);
    PointTextShape(fmt, p, rest);
    ExpectRoundTrip("[", a + (", " + (b + ("]" + rest))));
    NumberRoundTrip(a, ", " + (b + ("]" + rest)));
    ExpectRoundTrip(", ", b + ("]" + rest));
    NumberRoundTrip(b, "]" + rest);
    ExpectRoundTrip("]", rest);
  }

  /** A point's text: `[`, the longitude, `, `, the latitude, `]`. */
  lemma PointTextShape(fmt: real -> string, p: Point, rest: string)
    requires HasLonLat(p)
    ensures PointText(fmt, p) + rest == "[" + (fmt(p[0]) + (", " + (fmt(p[1]) + ("]" + rest))))
  {
    var a, b := fmt(p[0]), fmt(p[1]);
    assert [a, b][1..] == [b];
    assert Python.Prefixed(", ", [b]) == ", " + b + Python.Prefixed(", ", []);
    assert Python.Join(", ", [a, b]) == a + ", " + b;
  }

  /** The points of a non-empty ring, each printed after a separator: the first point,
      then the others. */
  lemma PointTextsCons(fmt: real -> string, ring: Ring, rest: string)
    requires |ring| > 0 && WellFormedRing(ring)
    ensures WellFormedRing(ring[1..])
    ensures Python.Prefixed(", ", PointTexts(fmt, ring)) + "]" + rest
         == ", " + (PointText(fmt, ring[0]) + (Python.Prefixed(", ", PointTexts(fmt, ring[1..])) + "]" + rest))
  {
    var texts := PointTexts(fmt, ring);
    assert texts[0] == PointText(fmt, ring[0]);
    assert texts[1..] == PointTexts(fmt, ring[1..]);
    assert Python.Prefixed(", ", texts) == ", " + texts[0] + Python.Prefixed(", ", texts[1..]);
  }

  /** The text of a non-empty ring: a bracket, the first point, then the others each
      after a separator, and the closing bracket. */
  lemma RingTextCons(fmt: real -> string, ring: Ring, rest: string)
    requires |ring| > 0 && WellFormedRing(ring)
    ensures WellFormedRing(ring[1..])
    ensures RingText(fmt, ring) + rest
         == "[" + (PointText(fmt, ring[0]) + (Python.Prefixed(", ", PointTexts(fmt, ring[1..])) + "]" + rest))
  {
    var texts := PointTexts(fmt, ring);
    assert texts[0] == PointText(fmt, ring[0]);
    assert texts[1..] == PointTexts(fmt, ring[1..]);
    assert Python.Join(", ", texts) == texts[0] + Python.Prefixed(", ", texts[1..]);
  }

  lemma RingCoordinatesCons(fmt: real -> string, ring: Ring)
    requires |ring| > 0 && WellFormedRing(ring)
    ensures WellFormedRing(ring[1..])
    ensures RingCoordinates(fmt, ring) == [(fmt(ring[0][0]), fmt(ring[0][1]))] + RingCoordinates(fmt, ring[1..])
  {
  }

  lemma {:induction false} PointsTailRoundTrip(fmt: real -> string, ring: Ring, rest: string)
    requires NumberFormat(fmt)
    requires WellFormedRing(ring)
    ensures ParsePointsTail(Python.Prefixed(", ", PointTexts(fmt, ring)) + "]" + rest)
         == Some(Parsed(RingCoordinates(fmt, ring), rest))
  {
    if |ring| == 0 {
      assert Python.Prefixed(", ", PointTexts(fmt, ring)) + "]" + rest == "]" + rest;
      assert ("]" + rest)[1..] == rest;
    } else {
      var tail := ring[1..];
      var after := Python.Prefixed(", ", PointTexts(fmt, tail)) + "]" + rest;
      PointTextsCons(fmt, ring, rest);
      ExpectRoundTrip(", ", PointText(fmt, ring[0]) + after);
      PointRoundTrip(fmt, ring[0], after);
      PointsTailRoundTrip(fmt, tail, rest);
      RingCoordinatesCons(fmt, ring);
    }
  }

  lemma RingRoundTrip(fmt: real -> string, ring: Ring, rest: string)
    requires NumberFormat(fmt)
    requires WellFormedRing(ring)
    ensures ParseRing(RingText(fmt, ring) + rest) == Some(Parsed(RingCoordinates(fmt, ring), rest))
  {
    if |ring| == 0 {
      assert RingText(fmt, ring) + rest == "[" + ("]" + rest);
      ExpectRoundTrip("[", "]" + rest);
      assert ("]" + rest)[1..] == rest;
    } else {
      var tail := ring[1..];
      var after := Python.Prefixed(", ", PointTexts(fmt, tail)) + "]" + rest;
      RingTextCons(fmt, ring, rest);
      ExpectRoundTrip("[", PointText(fmt, ring[0]) + after);
      assert PointText(fmt, ring[0])[0] == '[';
      PointRoundTrip(fmt, ring[0], after);
      PointsTailRoundTrip(fmt, tail, rest);
      RingCoordinatesCons(fmt, ring);
    }
  }

  /** The rings of a non-empty list, each printed after a comma: the first ring, then
      the others. */
  lemma {:induction false} RingTextsCons(fmt: real -> string, rings: seq<Ring>, rest: string)
    requires |rings| > 0 && WellFormedRings(rings)
    ensures WellFormedRing(rings[0]) && WellFormedRings(rings[1..])
    ensures Python.Prefixed(",", RingTexts(fmt, rings)) + "]" + rest
         == "," + (RingText(fmt, rings[0]) + (Python.Prefixed(",", RingTexts(fmt, rings[1..])) + "]" + rest))
  {
    WellFormedTail(rings);
    var texts := RingTexts(fmt, rings);
    assert texts[1..] == RingTexts(fmt, rings[1..]);
  }

  lemma {:induction false} RingsTailRoundTrip(fmt: real -> string, rings: seq<Ring>, rest: string)
    requires NumberFormat(fmt)
    requires WellFormedRings(rings)
    ensures ParseRingsTail(Python.Prefixed(",", RingTexts(fmt, rings)) + "]" + rest)
         == Some(Parsed(AllCoordinates(fmt, rings), rest))
  {
    if |rings| == 0 {
      assert Python.Prefixed(",", RingTexts(fmt, rings)) + "]" + rest == "]" + rest;
      assert ("]" + rest)[1..] == rest;
    } else {
      var tail := rings[1..];
      var after := Python.Prefixed(",", RingTexts(fmt, tail)) + "]" + rest;
      RingTextsCons(fmt, rings, rest);
      ExpectRoundTrip(",", RingText(fmt, rings[0]) + after);
      RingRoundTrip(fmt, rings[0], after);
      RingsTailRoundTrip(fmt, tail, rest);
      AllCoordinatesCons(fmt, rings);
    }
  }

  /** Reading the serialiser's text gives back every ring, in order, each with the
      printed longitude and latitude of each of its points, in order. */
  lemma MultiPolygonRoundTrip(fmt: real -> string, rings: seq<Ring>)
    requires NumberFormat(fmt)
    requires |rings| > 0 && WellFormedRings(rings)
    ensures ParseMultiPolygon(MultiPolygonText(fmt, rings)) == Some(AllCoordinates(fmt, rings))
  {
    var tail := rings[1..];
    var after := Python.Prefixed(",", RingTexts(fmt, tail)) + "]";
    MultiPolygonTextSplit(fmt, rings);
    ExpectRoundTrip("[", RingText(fmt, rings[0]) + after);
    RingRoundTrip(fmt, rings[0], after);
    RingsTailRoundTrip(fmt, tail, "");
    assert after + "" == after;
    AllCoordinatesCons(fmt, rings);
  }

  /** The text of a non-empty ring list: a bracket, the first ring, then the others
      each after a comma, and the closing bracket. */
  lemma MultiPolygonTextSplit(fmt: real -> string, rings: seq<Ring>)
    requires |rings| > 0 && WellFormedRings(rings)
    ensures WellFormedRing(rings[0]) && WellFormedRings(rings[1..])
    ensures MultiPolygonText(fmt, rings)
         == "[" + (RingText(fmt, rings[0]) + (Python.Prefixed(",", RingTexts(fmt, rings[1..])) + "]"))
  {
    WellFormedTail(rings);
    var texts := RingTexts(fmt, rings);
    assert texts[0] == RingText(fmt, rings[0]);
    assert texts[1..] == RingTexts(fmt, rings[1..]);
    assert Python.Join(",", texts) == texts[0] + Python.Prefixed(",", texts[1..]);
  }

  /** What the serialiser's output holds: exactly `1 + |holes|` rings, the outer ring
      first and the holes after it in input order, each point reduced to its printed
      first two components. */
  lemma SerialisedRings(fmt: real -> string, polygon: Ring, holes: seq<Ring>)
    requires NumberFormat(fmt)
    requires WellFormedRings([polygon] + holes)
    ensures var parsed := ParseMultiPolygon(MultiPolygonText(fmt, [polygon] + holes));
      && parsed.Some?
      && |parsed.value| == 1 + |holes|
      && parsed.value[0] == RingCoordinates(fmt, polygon)
      && (forall k :: 0 <= k < |holes| ==> WellFormedRing(holes[k]) && parsed.value[k + 1] == RingCoordinates(fmt, holes[k]))
  {
    MultiPolygonRoundTrip(fmt, [polygon] + holes);
    AllCoordinatesOfParts(fmt, polygon, holes);
  }

  lemma AllCoordinatesOfParts(fmt: real -> string, polygon: Ring, holes: seq<Ring>)
    requires WellFormedRings([polygon] + holes)
    ensures var all := AllCoordinates(fmt, [polygon] + holes);
      && |all| == 1 + |holes|
      && WellFormedRing(polygon) && all[0] == RingCoordinates(fmt, polygon)
      && (forall k :: 0 <= k < |holes| ==> WellFormedRing(holes[k]) && all[k + 1] == RingCoordinates(fmt, holes[k]))
  {
    var rings := [polygon] + holes;
    WellFormedCons(polygon, holes);
    assert rings[0] == polygon;
    assert forall k :: 0 <= k < |holes| ==> rings[k + 1] == holes[k];
  }
}
