/** The road-label feature: a road is labelled along the longest of its
    sections that cross the tile, and only when that section is long enough. */
module RoadLabel {
  import opened Region
  import opened Feature

  /** The length of a segment, measured on the grid (|dx| + |dy|). */
  function SegmentLength(a: Coord, b: Coord): nat {
    (if b.x >= a.x then b.x - a.x else a.x - b.x) + (if b.y >= a.y then b.y - a.y else a.y - b.y)
  }

  /** The length of the path through the points, in order. */
  function PathLength(points: seq<Coord>): nat {
    if |points| < 2 then 0
    else PathLength(points[..|points| - 1]) + SegmentLength(points[|points| - 2], points[|points| - 1])
  }

  /** Translating a path to the tile's local space does not change its length,
      so a section measures the same in global and local coordinates. */
  lemma {:induction false} PathLengthTranslationInvariant(region: URRegion, points: seq<Coord>)
    ensures PathLength(ConvertToMapboxCoordinates(region, points)) == PathLength(points)
  {
    if |points| >= 2 {
      var local := ConvertToMapboxCoordinates(region, points);
      var init := points[..|points| - 1];
      PathLengthTranslationInvariant(region, init);
      assert local[..|local| - 1] == ConvertToMapboxCoordinates(region, init);
    }
  }

  /** A path is at least as long as the distance between its ends. */
  lemma {:induction false} PathLengthAtLeastSpan(points: seq<Coord>)
    requires |points| >= 1
    ensures SegmentLength(points[0], points[|points| - 1]) <= PathLength(points)
  {
    if |points| >= 2 {
      var init := points[..|points| - 1];
      PathLengthAtLeastSpan(init);
      assert init[0] == points[0] && init[|init| - 1] == points[|points| - 2];
    }
  }

  /** Every range lies within the item's coordinates. */
  predicate RangesWithin(rs: seq<CoordRange>, n: nat) {
    forall k :: 0 <= k < |rs| ==> rs[k].start + rs[k].length <= n
  }

  /** `distanceOfSection`: the length of the path through the section's coordinates. */
  function DistanceOfSection(mapItem: MapItem, section: CoordRange): nat
    requires section.start + section.length <= |mapItem.coords|
  {
    PathLength(mapItem.coords[section.start..section.start + section.length])
  }

  /** The index, among the first k ranges, of the longest one, the earliest on ties. */
  function LongestIndex(mapItem: MapItem, rs: seq<CoordRange>, k: nat): (best: nat)
    requires 0 < k <= |rs| && RangesWithin(rs, |mapItem.coords|)
    ensures best < k
  {
    if k == 1 then 0
    else
      var b := LongestIndex(mapItem, rs, k - 1);
      if DistanceOfSection(mapItem, rs[k - 1]) > DistanceOfSection(mapItem, rs[b]) then k - 1 else b
  }

  /** The greatest section length among the first k ranges, 0 when there are none. */
  function MaxDistance(mapItem: MapItem, rs: seq<CoordRange>, k: nat): nat
    requires k <= |rs| && RangesWithin(rs, |mapItem.coords|)
  {
    if k == 0 then 0
    else
      var m := MaxDistance(mapItem, rs, k - 1);
      var d := DistanceOfSection(mapItem, rs[k - 1]);
      if d > m then d else m
  }

  /** The selected range is a longest one, every earlier range is strictly
      shorter, and its length is the maximum. */
  lemma {:induction false} LongestIndexCharacterised(mapItem: MapItem, rs: seq<CoordRange>, k: nat)
    requires 0 < k <= |rs| && RangesWithin(rs, |mapItem.coords|)
    ensures var best := LongestIndex(mapItem, rs, k);
      DistanceOfSection(mapItem, rs[best]) == MaxDistance(mapItem, rs, k) &&
      (forall i :: 0 <= i < k ==> DistanceOfSection(mapItem, rs[i]) <= DistanceOfSection(mapItem, rs[best])) &&
      (forall i :: 0 <= i < best ==> DistanceOfSection(mapItem, rs[i]) < DistanceOfSection(mapItem, rs[best]))
  {
    if k > 1 {
      LongestIndexCharacterised(mapItem, rs, k - 1);
    }
  }

  /** The item's relevant ranges, with the facts the selection needs about them. */
  function Sections(region: URRegion, mapItem: MapItem): (rs: seq<CoordRange>)
    ensures rs == RelevantRanges(region, mapItem.coords)
    ensures RangesWithin(rs, |mapItem.coords|)
  {
    RelevantRangesSound(region, mapItem.coords);
    RelevantRanges(region, mapItem.coords)
  }

  /** `longestSection`: the longest relevant range, or (0, 0) when the item has none. */
  function LongestSection(region: URRegion, mapItem: MapItem): CoordRange {
    var rs := Sections(region, mapItem);
    if |rs| == 0 then CoordRange(0, 0) else rs[LongestIndex(mapItem, rs, |rs|)]
  }

  /** `distanceOfLongestSection`: the greatest length among the relevant ranges. */
  function DistanceOfLongestSection(region: URRegion, mapItem: MapItem): nat {
    var rs := Sections(region, mapItem);
    MaxDistance(mapItem, rs, |rs|)
  }

  /** The longest section is one of the relevant ranges (when there are any),
      no relevant range is longer, the ranges before it are strictly shorter,
      and its length is `distanceOfLongestSection`. */
  lemma LongestSectionSound(region: URRegion, mapItem: MapItem)
    ensures var rs := RelevantRanges(region, mapItem.coords);
      var longest := LongestSection(region, mapItem);
      longest.start + longest.length <= |mapItem.coords| &&
      (|rs| > 0 ==> longest in rs) &&
      (|rs| == 0 ==> longest == CoordRange(0, 0)) &&
      (forall k :: 0 <= k < |rs| ==> DistanceOfSection(mapItem, rs[k]) <= DistanceOfSection(mapItem, longest)) &&
      DistanceOfLongestSection(region, mapItem) == DistanceOfSection(mapItem, longest)
  {
    var rs := Sections(region, mapItem);
    if |rs| > 0 {
      LongestIndexCharacterised(mapItem, rs, |rs|);
    }
  }

  /** `shouldRender`: the longest section is longer than the label's minimum length. */
  predicate ShouldRender(region: URRegion, mapItem: MapItem, minLength: nat) {
    DistanceOfLongestSection(region, mapItem) > minLength
  }

  /** An item with no relevant range in the tile is never labelled. */
  lemma NoSectionNoRender(region: URRegion, mapItem: MapItem, minLength: nat)
    requires |RelevantRanges(region, mapItem.coords)| == 0
    ensures !ShouldRender(region, mapItem, minLength)
  {
  }

  /** A label is drawn exactly when some relevant section is longer than the minimum. */
  lemma ShouldRenderIffLongSection(region: URRegion, mapItem: MapItem, minLength: nat)
    ensures ShouldRender(region, mapItem, minLength) <==>
      exists k :: 0 <= k < |Sections(region, mapItem)| &&
        DistanceOfSection(mapItem, Sections(region, mapItem)[k]) > minLength
  {
    var rs := Sections(region, mapItem);
    LongestSectionSound(region, mapItem);
    if ShouldRender(region, mapItem, minLength) {
      var longest := LongestSection(region, mapItem);
      assert |rs| > 0;
      var k :| 0 <= k < |rs| && rs[k] == longest;
    }
  }

  /** `getGeometries`: the longest section in local coordinates, or nothing. */
  function GetGeometries(region: URRegion, mapItem: MapItem): (geometry: GeometryCollection)
    ensures |geometry| <= 1
    ensures |geometry| == 1 <==> |RelevantRanges(region, mapItem.coords)| > 0
    ensures |geometry| == 1 ==>
      var longest := LongestSection(region, mapItem);
      longest.start + longest.length <= |mapItem.coords| &&
      |geometry[0]| == longest.length &&
      forall i :: 0 <= i < longest.length ==>
        geometry[0][i] == LocalCoordWithOrigin(mapItem.coords[longest.start + i], region.minimum)
  {
    LongestSectionSound(region, mapItem);
    var rs := Sections(region, mapItem);
    if |rs| == 0 then [] else [GetMapboxCoordinatesInRange(region, mapItem, LongestSection(region, mapItem))]
  }
}
