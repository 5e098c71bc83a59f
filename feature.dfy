/** The geometry helpers shared by the tile features: the coordinate ranges of
    a map item that matter to the tile, conversion to tile-local coordinates,
    the even-odd point-in-polygon test, assignment of clipped holes to the
    clipped outer polygons, and the clipped polygon of an areal item. The
    feature's `region` and `mapItem` fields, which these const members read,
    are explicit parameters here. */
module Feature {
  import opened Wrappers
  import opened Region
  import opened RayClipper

  /** The map-data store's item classification, reduced to what the model distinguishes. */
  datatype ItemType = TypeNone | TypePolyWater | TypePolyLand | TypeOther(code: int)

  /** A raw map item: its type, its coordinates in order, and its hole contours. */
  datatype MapItem = MapItem(itemType: ItemType, coords: seq<Coord>, holes: seq<seq<Coord>>)

  /** A map item paired with the flag saying it was borrowed from a neighbouring (proxy) tile. */
  datatype AreaEntry = AreaEntry(mapItem: MapItem, fromProxyTile: bool)

  /** A run of `length` consecutive coordinates of an item, starting at index `start`. */
  datatype CoordRange = CoordRange(start: nat, length: nat)

  type GeometryCoordinates = seq<Coord>
  type GeometryCollection = seq<GeometryCoordinates>

  // ---------------------------------------------------------------------------
  // Relevant coordinate ranges
  // ---------------------------------------------------------------------------

  /** The number of segments joining consecutive coordinates. */
  function SegmentCount(coords: seq<Coord>): nat {
    if |coords| == 0 then 0 else |coords| - 1
  }

  /** Segment j, from coordinate j to coordinate j + 1, meets the region. */
  predicate SegmentRelevant(region: URRegion, coords: seq<Coord>, j: nat)
    requires j < SegmentCount(coords)
  {
    URRegionIntersectsLine(region, coords[j], coords[j + 1])
  }

  /** Both ends of segment j belong to the range. */
  predicate SegmentInRange(r: CoordRange, j: int) {
    r.start <= j && j + 1 < r.start + r.length
  }

  predicate InSomeRange(rs: seq<CoordRange>, j: int) {
    exists k :: 0 <= k < |rs| && SegmentInRange(rs[k], j)
  }

  /** Ranges of at least two coordinates within the item, in increasing order and disjoint. */
  predicate RangesOrdered(rs: seq<CoordRange>, n: nat) {
    (forall k :: 0 <= k < |rs| ==> rs[k].length >= 2 && rs[k].start + rs[k].length <= n) &&
    (forall k1, k2 :: 0 <= k1 < k2 < |rs| ==> rs[k1].start + rs[k1].length <= rs[k2].start)
  }

  /** The state of the scan after the first segments: the ranges closed so far
      and the start of the run still open, if any. */
  datatype ScanState = ScanState(ranges: seq<CoordRange>, runStart: Option<nat>)

  /** One step of the scan, at segment `seg`: a relevant segment opens a run or
      extends the open one; an irrelevant segment closes the open run. */
  function ScanStep(region: URRegion, coords: seq<Coord>, st: ScanState, seg: nat): (next: ScanState)
    requires seg < SegmentCount(coords)
    requires st.runStart.Some? ==> st.runStart.value <= seg
    ensures next.runStart.Some? ==> next.runStart.value <= seg
  {
    if SegmentRelevant(region, coords, seg) then
      (if st.runStart.None? then ScanState(st.ranges, Some(seg)) else st)
    else if st.runStart.Some? then
      ScanState(st.ranges + [CoordRange(st.runStart.value, seg - st.runStart.value + 1)], None)
    else st
  }

  /** The scan over the first i segments. */
  function Scan(region: URRegion, coords: seq<Coord>, i: nat): (st: ScanState)
    requires i <= SegmentCount(coords)
    ensures st.runStart.Some? ==> st.runStart.value < i
  {
    if i == 0 then ScanState([], None)
    else ScanStep(region, coords, Scan(region, coords, i - 1), i - 1)
  }

  /** The ranges of the item's coordinates that are relevant to the tile. */
  function RelevantRanges(region: URRegion, coords: seq<Coord>): seq<CoordRange> {
    var st := Scan(region, coords, SegmentCount(coords));
    if st.runStart.Some? then st.ranges + [CoordRange(st.runStart.value, |coords| - st.runStart.value)]
    else st.ranges
  }

  lemma InSomeRangeAppend(rs: seq<CoordRange>, r: CoordRange, j: int)
    ensures InSomeRange(rs + [r], j) <==> InSomeRange(rs, j) || SegmentInRange(r, j)
  {
    if InSomeRange(rs, j) {
      var k :| 0 <= k < |rs| && SegmentInRange(rs[k], j);
      assert (rs + [r])[k] == rs[k];
    }
    if SegmentInRange(r, j) {
      assert (rs + [r])[|rs|] == r;
    }
    if InSomeRange(rs + [r], j) {
      var k :| 0 <= k < |rs + [r]| && SegmentInRange((rs + [r])[k], j);
      if k < |rs| { assert (rs + [r])[k] == rs[k]; }
    }
  }

  /** What holds of the scan after the first i segments: the closed ranges are
      ordered and end before the open run, the open run consists of relevant
      segments, and a segment seen so far is relevant exactly when it belongs to
      a closed range or to the open run. */
  predicate ScanInv(region: URRegion, coords: seq<Coord>, i: nat, st: ScanState)
    requires i <= SegmentCount(coords)
  {
    RangesOrdered(st.ranges, i) &&
    (st.runStart.Some? ==>
      st.runStart.value < i &&
      (forall k :: 0 <= k < |st.ranges| ==> st.ranges[k].start + st.ranges[k].length <= st.runStart.value) &&
      (forall j :: st.runStart.value <= j < i ==> SegmentRelevant(region, coords, j))) &&
    (forall j :: 0 <= j < i ==>
      (SegmentRelevant(region, coords, j) <==>
        InSomeRange(st.ranges, j) || (st.runStart.Some? && st.runStart.value <= j)))
  }

  /** Closing the open run at an irrelevant segment keeps the invariant. */
  lemma CloseRunStep(region: URRegion, coords: seq<Coord>, i: nat, st: ScanState)
    requires 0 < i <= SegmentCount(coords)
    requires ScanInv(region, coords, i - 1, st) && st.runStart.Some?
    requires !SegmentRelevant(region, coords, i - 1)
    ensures ScanInv(region, coords, i,
      ScanState(st.ranges + [CoordRange(st.runStart.value, i - 1 - st.runStart.value + 1)], None))
  {
    var r := CoordRange(st.runStart.value, i - 1 - st.runStart.value + 1);
    var rs := st.ranges + [r];
    forall j | 0 <= j < i
      ensures InSomeRange(rs, j) <==> InSomeRange(st.ranges, j) || SegmentInRange(r, j)
    {
      InSomeRangeAppend(st.ranges, r, j);
    }
    forall k1, k2 | 0 <= k1 < k2 < |rs| ensures rs[k1].start + rs[k1].length <= rs[k2].start {
      if k2 == |rs| - 1 {
        assert rs[k1] == st.ranges[k1];
      }
    }
  }

  /** Every step of the scan keeps the invariant. */
  lemma ScanStepKeeps(region: URRegion, coords: seq<Coord>, i: nat, st: ScanState)
    requires 0 < i <= SegmentCount(coords)
    requires ScanInv(region, coords, i - 1, st)
    ensures ScanInv(region, coords, i, ScanStep(region, coords, st, i - 1))
  {
    if !SegmentRelevant(region, coords, i - 1) && st.runStart.Some? {
      CloseRunStep(region, coords, i, st);
    }
  }

  lemma {:induction false} ScanInvariant(region: URRegion, coords: seq<Coord>, i: nat)
    requires i <= SegmentCount(coords)
    ensures ScanInv(region, coords, i, Scan(region, coords, i))
  {
    if i > 0 {
      ScanInvariant(region, coords, i - 1);
      ScanStepKeeps(region, coords, i, Scan(region, coords, i - 1));
    }
  }

  /** What `RelevantCoordinateRangesInTileRect` promises: the ranges lie within
      the item, come in increasing order without overlapping, and a segment is
      inside some range exactly when it meets the tile region. */
  lemma {:induction false} RelevantRangesSound(region: URRegion, coords: seq<Coord>)
    ensures RangesOrdered(RelevantRanges(region, coords), |coords|)
    ensures forall j :: 0 <= j < SegmentCount(coords) ==>
      (SegmentRelevant(region, coords, j) <==> InSomeRange(RelevantRanges(region, coords), j))
  {
    var n := SegmentCount(coords);
    ScanInvariant(region, coords, n);
    var st := Scan(region, coords, n);
    if st.runStart.Some? {
      var r := CoordRange(st.runStart.value, |coords| - st.runStart.value);
      forall j | 0 <= j < n
        ensures InSomeRange(st.ranges + [r], j) <==> InSomeRange(st.ranges, j) || SegmentInRange(r, j)
      {
        InSomeRangeAppend(st.ranges, r, j);
      }
      var rs := st.ranges + [r];
      forall k1, k2 | 0 <= k1 < k2 < |rs| ensures rs[k1].start + rs[k1].length <= rs[k2].start {
        if k2 == |rs| - 1 {
          assert rs[k1] == st.ranges[k1];
        }
      }
    }
  }

  /** The range is bordered by irrelevant segments (or by the ends of the item). */
  predicate RangeMaximal(region: URRegion, coords: seq<Coord>, r: CoordRange) {
    (0 < r.start <= SegmentCount(coords) ==> !SegmentRelevant(region, coords, r.start - 1)) &&
    (0 < r.start + r.length < |coords| ==> !SegmentRelevant(region, coords, r.start + r.length - 1))
  }

  /** A range starts after an irrelevant segment (or at the first coordinate)
      and ends before one (or at the last coordinate): ranges are maximal. */
  lemma {:induction false} RelevantRangesMaximal(region: URRegion, coords: seq<Coord>, k: nat)
    requires k < |RelevantRanges(region, coords)|
    ensures RangeMaximal(region, coords, RelevantRanges(region, coords)[k])
  {
    var rs := RelevantRanges(region, coords);
    var r := rs[k];
    RelevantRangesSound(region, coords);
    forall j | j == r.start - 1 || j == r.start + r.length - 1
      ensures !SegmentInRange(r, j)
    {
    }
    forall k' | 0 <= k' < |rs| && k' != k
      ensures !SegmentInRange(rs[k'], r.start - 1) && !SegmentInRange(rs[k'], r.start + r.length - 1)
    {
      if k' < k {
        assert rs[k'].start + rs[k'].length <= r.start;
      } else {
        assert r.start + r.length <= rs[k'].start;
      }
    }
  }

  /** `RelevantCoordinateRangesInTileRect`: one pass over the item's segments,
      opening a range at the first relevant segment of a run and closing it at
      the next irrelevant one. */
  method RelevantCoordinateRangesInTileRect(region: URRegion, mapItem: MapItem) returns (ranges: seq<CoordRange>)
    ensures ranges == RelevantRanges(region, mapItem.coords)
    ensures RangesOrdered(ranges, |mapItem.coords|)
    ensures forall j :: 0 <= j < SegmentCount(mapItem.coords) ==>
      (SegmentRelevant(region, mapItem.coords, j) <==> InSomeRange(ranges, j))
  {
    var coords := mapItem.coords;
    ranges := [];
    var runStart: Option<nat> := None;
    var i := 0;
    while i < SegmentCount(coords)
      invariant i <= SegmentCount(coords)
      invariant Scan(region, coords, i) == ScanState(ranges, runStart)
    {
      if URRegionIntersectsLine(region, coords[i], coords[i + 1]) {
        if runStart.None? {
          runStart := Some(i);
        }
      } else if runStart.Some? {
        ranges := ranges + [CoordRange(runStart.value, i - runStart.value + 1)];
        runStart := None;
      }
      i := i + 1;
    }
    if runStart.Some? {
      ranges := ranges + [CoordRange(runStart.value, |coords| - runStart.value)];
    }
    RelevantRangesSound(region, coords);
  }

  /** A line that enters the tile (0, 0)-(100, 100) at the left and leaves it at
      the right has a single range holding all three of its points. */
  lemma LineThroughTileIsOneRange()
    ensures RelevantRanges(URRegion(Coord(0, 0), Coord(100, 100)),
                           [Coord(-10, 50), Coord(50, 50), Coord(200, 50)]) == [CoordRange(0, 3)]
  {
    var region := URRegion(Coord(0, 0), Coord(100, 100));
    var coords := [Coord(-10, 50), Coord(50, 50), Coord(200, 50)];
    EndpointInRegionIntersects(region, coords[0], coords[1]);
    EndpointInRegionIntersects(region, coords[1], coords[2]);
    assert Scan(region, coords, 1) == ScanState([], Some(0));
    assert Scan(region, coords, 2) == ScanState([], Some(0));
  }

  // ---------------------------------------------------------------------------
  // Local coordinates
  // ---------------------------------------------------------------------------

  /** Each coordinate translated to the tile's local space, whose origin is the region minimum. */
  function ConvertToMapboxCoordinates(region: URRegion, globalCoords: seq<Coord>): (local: GeometryCoordinates)
    ensures |local| == |globalCoords|
    ensures forall i :: 0 <= i < |globalCoords| ==> local[i] == LocalCoordWithOrigin(globalCoords[i], region.minimum)
  {
    if |globalCoords| == 0 then []
    else [LocalCoordWithOrigin(globalCoords[0], region.minimum)] + ConvertToMapboxCoordinates(region, globalCoords[1..])
  }

  /** Each local coordinate translated back to global space. */
  function ConvertToGlobalCoordinates(region: URRegion, localCoords: seq<Coord>): (global: seq<Coord>)
    ensures |global| == |localCoords|
    ensures forall i :: 0 <= i < |localCoords| ==> global[i] == GlobalCoordWithOrigin(localCoords[i], region.minimum)
  {
    if |localCoords| == 0 then []
    else [GlobalCoordWithOrigin(localCoords[0], region.minimum)] + ConvertToGlobalCoordinates(region, localCoords[1..])
  }

  /** Conversion to local space loses nothing: converting back recovers the input. */
  lemma ConvertRoundTrip(region: URRegion, globalCoords: seq<Coord>)
    ensures ConvertToGlobalCoordinates(region, ConvertToMapboxCoordinates(region, globalCoords)) == globalCoords
  {
    var back := ConvertToGlobalCoordinates(region, ConvertToMapboxCoordinates(region, globalCoords));
    forall i | 0 <= i < |globalCoords| ensures back[i] == globalCoords[i] {
      LocalGlobalRoundTrip(globalCoords[i], region.minimum);
    }
  }

  /** Every point of a ring lies in [0, maximum - minimum] on both axes. */
  predicate RingInTile(region: URRegion, ring: GeometryCoordinates) {
    forall i :: 0 <= i < |ring| ==> InTileExtent(region, ring[i])
  }

  /** Coordinates inside the region convert to coordinates within the tile's extent. */
  lemma ConvertInTile(region: URRegion, globalCoords: seq<Coord>)
    requires forall i :: 0 <= i < |globalCoords| ==> URRegionContainsCoord(region, globalCoords[i])
    ensures RingInTile(region, ConvertToMapboxCoordinates(region, globalCoords))
  {
  }

  /** `GetMapboxCoordinatesInRange`: the converted coordinates of one range, in source order. */
  function GetMapboxCoordinatesInRange(region: URRegion, mapItem: MapItem, coordRange: CoordRange): (local: GeometryCoordinates)
    requires coordRange.start + coordRange.length <= |mapItem.coords|
    ensures |local| == coordRange.length
    ensures forall i :: 0 <= i < coordRange.length ==>
      local[i] == LocalCoordWithOrigin(mapItem.coords[coordRange.start + i], region.minimum)
  {
    ConvertToMapboxCoordinates(region, mapItem.coords[coordRange.start..coordRange.start + coordRange.length])
  }

  // ---------------------------------------------------------------------------
  // Point in polygon
  // ---------------------------------------------------------------------------

  /** The edge a-b crosses the horizontal ray from p towards +x: its ends lie
      on opposite sides of the ray's line, and the crossing is right of p
      (the division of the usual test multiplied out, so it stays exact). */
  predicate EdgeCrossesRay(p: Coord, a: Coord, b: Coord) {
    (a.y > p.y) != (b.y > p.y) &&
    if b.y > a.y then (p.x - a.x) * (b.y - a.y) < (b.x - a.x) * (p.y - a.y)
    else (p.x - a.x) * (b.y - a.y) > (b.x - a.x) * (p.y - a.y)
  }

  /** The number of edges, among those ending at the first k vertices, that the ray crosses. */
  function CrossingCount(polygon: GeometryCoordinates, p: Coord, k: nat): nat
    requires k <= |polygon|
  {
    if k == 0 then 0
    else
      var crossing := if EdgeCrossesRay(p, polygon[k - 1], polygon[PrevIndex(|polygon|, k - 1)]) then 1 else 0;
      CrossingCount(polygon, p, k - 1) + crossing
  }

  /** The even-odd rule: inside when the ray crosses the boundary an odd number of times. */
  predicate InsideEvenOdd(polygon: GeometryCoordinates, p: Coord) {
    CrossingCount(polygon, p, |polygon|) % 2 == 1
  }

  /** p lies on the closed segment a-b: collinear with it and within its bounding box. */
  predicate OnSegment(p: Coord, a: Coord, b: Coord) {
    (b.x - a.x) * (p.y - a.y) == (b.y - a.y) * (p.x - a.x) &&
    Min(a.x, b.x) <= p.x <= Max(a.x, b.x) && Min(a.y, b.y) <= p.y <= Max(a.y, b.y)
  }

  /** p lies on edge e, the edge from vertex e back to the vertex before it. */
  predicate OnEdge(polygon: GeometryCoordinates, p: Coord, e: nat)
    requires e < |polygon|
  {
    OnSegment(p, polygon[e], polygon[PrevIndex(|polygon|, e)])
  }

  predicate OnBoundary(polygon: GeometryCoordinates, p: Coord) {
    exists e :: 0 <= e < |polygon| && OnEdge(polygon, p, e)
  }

  /** Containment with the boundary included: on an edge, or inside by the even-odd rule. */
  predicate PolygonContains(polygon: GeometryCoordinates, p: Coord) {
    OnBoundary(polygon, p) || InsideEvenOdd(polygon, p)
  }

  /** `PointInPolygon`: walks the edges, flipping the parity at each crossing
      and noting whether the point lies on the edge; a point on an edge counts
      as inside. */
  method PointInPolygon(polygon: GeometryCoordinates, coordinate: Coord) returns (inside: bool)
    ensures inside == PolygonContains(polygon, coordinate)
  {
    var odd := false;
    var onEdge := false;
    var i := 0;
    while i < |polygon|
      invariant 0 <= i <= |polygon|
      invariant odd == (CrossingCount(polygon, coordinate, i) % 2 == 1)
      invariant onEdge <==> exists e :: 0 <= e < i && OnEdge(polygon, coordinate, e)
    {
      var j := if i == 0 then |polygon| - 1 else i - 1;
      assert j == PrevIndex(|polygon|, i);
      if OnEdge(polygon, coordinate, i) {
        onEdge := true;
      }
      if EdgeCrossesRay(coordinate, polygon[i], polygon[j]) {
        odd := !odd;
      }
      i := i + 1;
    }
    inside := onEdge || odd;
  }

  /** Every vertex of a polygon is contained in it. */
  lemma VertexContained(polygon: GeometryCoordinates, i: nat)
    requires i < |polygon|
    ensures PolygonContains(polygon, polygon[i])
  {
    assert OnEdge(polygon, polygon[i], i);
  }

  /** No edge crosses the ray of a point at or above every vertex, or below every vertex. */
  lemma {:induction false} NoCrossingOutsideVerticalExtent(polygon: GeometryCoordinates, p: Coord, k: nat)
    requires k <= |polygon|
    requires (forall i :: 0 <= i < |polygon| ==> polygon[i].y <= p.y) ||
             (forall i :: 0 <= i < |polygon| ==> polygon[i].y > p.y)
    ensures CrossingCount(polygon, p, k) == 0
  {
    if k > 0 {
      NoCrossingOutsideVerticalExtent(polygon, p, k - 1);
      var a, b := polygon[k - 1], polygon[PrevIndex(|polygon|, k - 1)];
      assert (a.y > p.y) == (b.y > p.y);
    }
  }

  /** A point strictly above or strictly below every vertex is not contained. */
  lemma OutsideVerticalExtent(polygon: GeometryCoordinates, p: Coord)
    requires (forall i :: 0 <= i < |polygon| ==> polygon[i].y < p.y) ||
             (forall i :: 0 <= i < |polygon| ==> polygon[i].y > p.y)
    ensures !PolygonContains(polygon, p)
  {
    NoCrossingOutsideVerticalExtent(polygon, p, |polygon|);
    forall e | 0 <= e < |polygon| ensures !OnEdge(polygon, p, e) {
      var b := polygon[PrevIndex(|polygon|, e)];
      assert b.y != p.y && polygon[e].y != p.y;
    }
  }

  // ---------------------------------------------------------------------------
  // Hole assignment
  // ---------------------------------------------------------------------------

  /** Twice the signed area enclosed by the first k edges (the shoelace sum). */
  function ShoelaceSum(ring: GeometryCoordinates, k: nat): int
    requires k <= |ring|
  {
    if k == 0 then 0
    else
      var a, b := ring[PrevIndex(|ring|, k - 1)], ring[k - 1];
      ShoelaceSum(ring, k - 1) + (a.x * b.y - b.x * a.y)
  }

  /** Twice the area enclosed by the ring. */
  function DoubledArea(ring: GeometryCoordinates): nat {
    Abs(ShoelaceSum(ring, |ring|))
  }

  /** The hole's test point, its first vertex, is inside the outer ring or on its boundary. */
  predicate HoleInside(outer: GeometryCoordinates, hole: GeometryCoordinates) {
    |hole| > 0 && PolygonContains(outer, hole[0])
  }

  /** Among the first k outer rings, the containing one of least area, the
      earliest on ties; None when none contains the hole. */
  function OwnerAmong(outers: GeometryCollection, hole: GeometryCoordinates, k: nat): (owner: Option<nat>)
    requires k <= |outers|
    ensures owner.Some? ==> owner.value < k
  {
    if k == 0 then None
    else
      var best := OwnerAmong(outers, hole, k - 1);
      if HoleInside(outers[k - 1], hole) &&
         (best.None? || DoubledArea(outers[k - 1]) < DoubledArea(outers[best.value]))
      then Some(k - 1)
      else best
  }

  function Owner(outers: GeometryCollection, hole: GeometryCoordinates): Option<nat> {
    OwnerAmong(outers, hole, |outers|)
  }

  /** The owner is a containing outer ring of least area, the first such; there
      is none exactly when no outer ring contains the hole. */
  lemma {:induction false} OwnerAmongCharacterised(outers: GeometryCollection, hole: GeometryCoordinates, k: nat)
    requires k <= |outers|
    ensures OwnerAmong(outers, hole, k).None? <==> forall i :: 0 <= i < k ==> !HoleInside(outers[i], hole)
    ensures OwnerAmong(outers, hole, k).Some? ==>
      var o := OwnerAmong(outers, hole, k).value;
      HoleInside(outers[o], hole) &&
      forall i :: 0 <= i < k && HoleInside(outers[i], hole) ==>
        DoubledArea(outers[o]) <= DoubledArea(outers[i]) && (i < o ==> DoubledArea(outers[o]) < DoubledArea(outers[i]))
  {
    if k > 0 {
      OwnerAmongCharacterised(outers, hole, k - 1);
    }
  }

  /** The indices, among the first j holes, of the holes owned by outer ring k, in order. */
  function OwnedIndices(outers: GeometryCollection, holes: GeometryCollection, k: nat, j: nat): (idx: seq<nat>)
    requires j <= |holes|
    ensures forall x: int :: x in idx <==> 0 <= x < j && Owner(outers, holes[x]) == Some(k)
    ensures forall i :: 0 <= i < |idx| ==> idx[i] < j
  {
    if j == 0 then []
    else OwnedIndices(outers, holes, k, j - 1) + (if Owner(outers, holes[j - 1]) == Some(k) then [j - 1] else [])
  }

  /** The holes, among the first j, owned by outer ring k, in order. */
  function OwnedHoles(outers: GeometryCollection, holes: GeometryCollection, k: nat, j: nat): GeometryCollection
    requires j <= |holes|
  {
    if j == 0 then []
    else OwnedHoles(outers, holes, k, j - 1) + (if Owner(outers, holes[j - 1]) == Some(k) then [holes[j - 1]] else [])
  }

  /** The first k outer rings, each followed by the holes it owns. */
  function AssignPrefix(outers: GeometryCollection, holes: GeometryCollection, k: nat): GeometryCollection
    requires k <= |outers|
  {
    if k == 0 then []
    else AssignPrefix(outers, holes, k - 1) + [outers[k - 1]] + OwnedHoles(outers, holes, k - 1, |holes|)
  }

  /** The `completed` collection: every outer ring followed by the holes assigned to it. */
  function AssignHoles(outers: GeometryCollection, holes: GeometryCollection): GeometryCollection {
    AssignPrefix(outers, holes, |outers|)
  }

  lemma {:induction false} OwnedHolesAreIndexed(outers: GeometryCollection, holes: GeometryCollection, k: nat, j: nat)
    requires j <= |holes|
    ensures |OwnedHoles(outers, holes, k, j)| == |OwnedIndices(outers, holes, k, j)|
    ensures forall i :: 0 <= i < |OwnedHoles(outers, holes, k, j)| ==>
      OwnedHoles(outers, holes, k, j)[i] == holes[OwnedIndices(outers, holes, k, j)[i]]
  {
    if j > 0 {
      OwnedHolesAreIndexed(outers, holes, k, j - 1);
    }
  }

  /** What `AssignHolesToOuterPolygons` promises: a hole goes to at most one
      outer ring, only to one that contains it, to the smallest containing one,
      and a hole contained by some outer ring is never dropped. */
  lemma {:induction false} AssignHolesSound(outers: GeometryCollection, holes: GeometryCollection)
    ensures forall k1: nat, k2: nat, j :: j in OwnedIndices(outers, holes, k1, |holes|) && j in OwnedIndices(outers, holes, k2, |holes|) ==> k1 == k2
    ensures forall k: nat, j :: j in OwnedIndices(outers, holes, k, |holes|) ==> k < |outers| && HoleInside(outers[k], holes[j])
    ensures forall k: nat, j, i :: j in OwnedIndices(outers, holes, k, |holes|) && 0 <= i < |outers| && HoleInside(outers[i], holes[j]) ==>
      DoubledArea(outers[k]) <= DoubledArea(outers[i])
    ensures forall j, i :: 0 <= j < |holes| && 0 <= i < |outers| && HoleInside(outers[i], holes[j]) ==>
      exists k: nat :: j in OwnedIndices(outers, holes, k, |holes|)
  {
    forall j | 0 <= j < |holes| {
      OwnerAmongCharacterised(outers, holes[j], |outers|);
    }
    forall j, i | 0 <= j < |holes| && 0 <= i < |outers| && HoleInside(outers[i], holes[j])
      ensures exists k: nat :: j in OwnedIndices(outers, holes, k, |holes|)
    {
      var o := Owner(outers, holes[j]);
      assert o.Some?;
      assert j in OwnedIndices(outers, holes, o.value, |holes|);
    }
  }

  /** A hole that clipping cut at the tile's right border, so that its first
      vertex lies on that border, is kept by the clipped outline that fills the
      tile: a test vertex on an outer ring's edge counts as inside. */
  lemma BorderHoleIsKept()
    ensures var ring := [Coord(0, 100), Coord(0, 0), Coord(100, 0), Coord(100, 100)];
      var hole := [Coord(100, 20), Coord(50, 20), Coord(50, 80), Coord(100, 80)];
      AssignHoles([ring], [hole]) == [ring, hole]
  {
    var ring := [Coord(0, 100), Coord(0, 0), Coord(100, 0), Coord(100, 100)];
    var hole := [Coord(100, 20), Coord(50, 20), Coord(50, 80), Coord(100, 80)];
    assert OnEdge(ring, hole[0], 3);
    assert HoleInside(ring, hole);
    assert Owner([ring], [hole][0]) == Some(0);
    assert OwnedHoles([ring], [hole], 0, 1) == [hole];
  }

  /** Looks for the owner of one hole, testing the outer rings in order. */
  method FindOwner(outers: GeometryCollection, hole: GeometryCoordinates) returns (owner: Option<nat>)
    ensures owner == Owner(outers, hole)
  {
    owner := None;
    var k := 0;
    while k < |outers|
      invariant 0 <= k <= |outers|
      invariant owner == OwnerAmong(outers, hole, k)
    {
      var inside := false;
      if |hole| > 0 {
        inside := PointInPolygon(outers[k], hole[0]);
      }
      if inside && (owner.None? || DoubledArea(outers[k]) < DoubledArea(outers[owner.value])) {
        owner := Some(k);
      }
      k := k + 1;
    }
  }

  /** `AssignHolesToOuterPolygons`: finds the owner of every hole, then emits
      each outer ring followed by the holes it owns, in their original order. */
  method AssignHolesToOuterPolygons(outerPolygons: GeometryCollection, holes: GeometryCollection)
    returns (completed: GeometryCollection)
    ensures completed == AssignHoles(outerPolygons, holes)
  {
    var owners: seq<Option<nat>> := [];
    var j := 0;
    while j < |holes|
      invariant 0 <= j <= |holes|
      invariant |owners| == j
      invariant forall x :: 0 <= x < j ==> owners[x] == Owner(outerPolygons, holes[x])
    {
      var o := FindOwner(outerPolygons, holes[j]);
      owners := owners + [o];
      j := j + 1;
    }
    completed := [];
    var k := 0;
    while k < |outerPolygons|
      invariant 0 <= k <= |outerPolygons|
      invariant completed == AssignPrefix(outerPolygons, holes, k)
    {
      var group := [outerPolygons[k]];
      var h := 0;
      while h < |holes|
        invariant 0 <= h <= |holes|
        invariant group == [outerPolygons[k]] + OwnedHoles(outerPolygons, holes, k, h)
      {
        if owners[h] == Some(k) {
          group := group + [holes[h]];
        }
        h := h + 1;
      }
      completed := completed + group;
      k := k + 1;
    }
  }

  // ---------------------------------------------------------------------------
  // Clipped polygon in local coordinates
  // ---------------------------------------------------------------------------

  /** The tile region as the clipper's rectangle. */
  function RectOf(region: URRegion): (rect: Rect)
    ensures forall p :: InRect(rect, p) <==> URRegionContainsCoord(region, p)
  {
    Rect(region.minimum, region.maximum)
  }

  /** The contours of the polygons, converted to local coordinates. */
  function LocalRings(region: URRegion, ps: seq<Polygon>): (rings: GeometryCollection)
    ensures |rings| == |ps|
    ensures forall i :: 0 <= i < |ps| ==> rings[i] == ConvertToMapboxCoordinates(region, ps[i].contour)
  {
    if |ps| == 0 then []
    else LocalRings(region, ps[..|ps| - 1]) + [ConvertToMapboxCoordinates(region, ps[|ps| - 1].contour)]
  }

  /** Each hole contour clipped to the tile and converted to local coordinates. */
  function ClippedHoles(region: URRegion, holes: seq<seq<Coord>>): GeometryCollection {
    if |holes| == 0 then []
    else
      var clipped := RayClip(Polygon(holes[|holes| - 1], []), RectOf(region));
      ClippedHoles(region, holes[..|holes| - 1]) + LocalRings(region, clipped)
  }

  /** The areal item clipped to the tile, as local rings: every clipped outer
      ring followed by the clipped holes assigned to it. */
  function ClippedPolygon(region: URRegion, mapItem: MapItem): GeometryCollection {
    AssignHoles(LocalRings(region, RayClip(Polygon(mapItem.coords, []), RectOf(region))),
                ClippedHoles(region, mapItem.holes))
  }

  /** Every ring of the collection lies within the tile's extent. */
  predicate RingsInTile(region: URRegion, rings: GeometryCollection) {
    forall i :: 0 <= i < |rings| ==> RingInTile(region, rings[i])
  }

  lemma RingsInTileConcat(region: URRegion, a: GeometryCollection, b: GeometryCollection)
    ensures RingsInTile(region, a + b) <==> RingsInTile(region, a) && RingsInTile(region, b)
  {
    if RingsInTile(region, a) && RingsInTile(region, b) {
      forall i | 0 <= i < |a + b| ensures RingInTile(region, (a + b)[i]) {
        if i < |a| { assert (a + b)[i] == a[i]; } else { assert (a + b)[i] == b[i - |a|]; }
      }
    }
    if RingsInTile(region, a + b) {
      forall i | 0 <= i < |a| ensures RingInTile(region, a[i]) { assert (a + b)[i] == a[i]; }
      forall i | 0 <= i < |b| ensures RingInTile(region, b[i]) { assert (a + b)[|a| + i] == b[i]; }
    }
  }

  lemma LocalRingsInTile(region: URRegion, ps: seq<Polygon>)
    requires PolygonsInRect(RectOf(region), ps)
    ensures RingsInTile(region, LocalRings(region, ps))
  {
    forall i | 0 <= i < |ps| ensures RingInTile(region, LocalRings(region, ps)[i]) {
      ConvertInTile(region, ps[i].contour);
    }
  }

  lemma {:induction false} ClippedHolesInTile(region: URRegion, holes: seq<seq<Coord>>)
    ensures RingsInTile(region, ClippedHoles(region, holes))
  {
    if |holes| > 0 {
      var init := holes[..|holes| - 1];
      var clipped := RayClip(Polygon(holes[|holes| - 1], []), RectOf(region));
      ClippedHolesInTile(region, init);
      RayClipInRect(Polygon(holes[|holes| - 1], []), RectOf(region));
      LocalRingsInTile(region, clipped);
      RingsInTileConcat(region, ClippedHoles(region, init), LocalRings(region, clipped));
    }
  }

  lemma {:induction false} OwnedHolesInTile(region: URRegion, outers: GeometryCollection, holes: GeometryCollection, k: nat, j: nat)
    requires j <= |holes| && RingsInTile(region, holes)
    ensures RingsInTile(region, OwnedHoles(outers, holes, k, j))
  {
    if j > 0 {
      OwnedHolesInTile(region, outers, holes, k, j - 1);
      var last: GeometryCollection := if Owner(outers, holes[j - 1]) == Some(k) then [holes[j - 1]] else [];
      RingsInTileConcat(region, OwnedHoles(outers, holes, k, j - 1), last);
    }
  }

  /** Hole assignment only rearranges rings it was given, so it stays within the tile. */
  lemma {:induction false} AssignPrefixInTile(region: URRegion, outers: GeometryCollection, holes: GeometryCollection, k: nat)
    requires k <= |outers| && RingsInTile(region, outers) && RingsInTile(region, holes)
    ensures RingsInTile(region, AssignPrefix(outers, holes, k))
  {
    if k > 0 {
      AssignPrefixInTile(region, outers, holes, k - 1);
      OwnedHolesInTile(region, outers, holes, k - 1, |holes|);
      RingsInTileConcat(region, AssignPrefix(outers, holes, k - 1), [outers[k - 1]]);
      RingsInTileConcat(region, AssignPrefix(outers, holes, k - 1) + [outers[k - 1]], OwnedHoles(outers, holes, k - 1, |holes|));
    }
  }

  /** Every coordinate of the clipped polygon lies in [0, maximum - minimum] on both axes. */
  lemma {:induction false} ClippedPolygonInTile(region: URRegion, mapItem: MapItem)
    ensures RingsInTile(region, ClippedPolygon(region, mapItem))
  {
    var rect := RectOf(region);
    var outline := Polygon(mapItem.coords, []);
    RayClipInRect(outline, rect);
    LocalRingsInTile(region, RayClip(outline, rect));
    ClippedHolesInTile(region, mapItem.holes);
    var outers := LocalRings(region, RayClip(outline, rect));
    AssignPrefixInTile(region, outers, ClippedHoles(region, mapItem.holes), |outers|);
  }

  /** Clips one contour to the tile and converts the resulting rings to local coordinates. */
  method ClipToLocalRings(region: URRegion, contour: seq<Coord>) returns (rings: GeometryCollection)
    ensures rings == LocalRings(region, RayClip(Polygon(contour, []), RectOf(region)))
  {
    var outline := PolygonFromContour(contour);
    assert outline == Polygon(contour, []);
    var clipped := RayClipPolygon(outline, RectOf(region));
    rings := [];
    var k := 0;
    while k < |clipped|
      invariant 0 <= k <= |clipped|
      invariant rings == LocalRings(region, clipped[..k])
    {
      assert clipped[..k + 1][..k] == clipped[..k];
      rings := rings + [ConvertToMapboxCoordinates(region, clipped[k].contour)];
      k := k + 1;
    }
    assert clipped[..k] == clipped;
  }

  lemma ClippedHolesSnoc(region: URRegion, holes: seq<seq<Coord>>, h: nat)
    requires h < |holes|
    ensures ClippedHoles(region, holes[..h + 1]) ==
      ClippedHoles(region, holes[..h]) + LocalRings(region, RayClip(Polygon(holes[h], []), RectOf(region)))
  {
    assert holes[..h + 1][..h] == holes[..h];
    assert holes[..h + 1][h] == holes[h];
  }

  /** Clips every hole contour to the tile, in order, collecting the local rings. */
  method ClipHolesToLocalRings(region: URRegion, holeContours: seq<seq<Coord>>) returns (holes: GeometryCollection)
    ensures holes == ClippedHoles(region, holeContours)
  {
    holes := [];
    var h := 0;
    while h < |holeContours|
      invariant 0 <= h <= |holeContours|
      invariant holes == ClippedHoles(region, holeContours[..h])
    {
      var clippedHole := ClipToLocalRings(region, holeContours[h]);
      ClippedHolesSnoc(region, holeContours, h);
      holes := holes + clippedHole;
      h := h + 1;
    }
    assert holeContours[..h] == holeContours;
  }

  /** `ClippedPolygonInLocalCoords`: clips the outline and each hole to the
      tile, converts them to local coordinates and assigns the holes. */
  method ClippedPolygonInLocalCoords(region: URRegion, mapItem: MapItem) returns (geometry: GeometryCollection)
    ensures geometry == ClippedPolygon(region, mapItem)
    ensures RingsInTile(region, geometry)
  {
    var outers := ClipToLocalRings(region, mapItem.coords);
    var holes := ClipHolesToLocalRings(region, mapItem.holes);
    geometry := AssignHolesToOuterPolygons(outers, holes);
    ClippedPolygonInTile(region, mapItem);
  }
}
