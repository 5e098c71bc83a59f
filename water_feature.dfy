/** The water feature of a tile: the land areas and water areas collected by
    the water layer, drawn as one polygon feature covering the tile. */
module WaterFeature {
  import opened Region
  import opened Feature
  import opened TileLayer

  /** The whole tile as one ring in local coordinates, counter-clockwise from the origin. */
  function TileRing(region: URRegion): (ring: GeometryCoordinates)
    ensures |ring| == 4 && ring[0] == Coord(0, 0)
    ensures ring[2] == LocalCoordWithOrigin(region.maximum, region.minimum)
    ensures WellFormed(region) ==> RingInTile(region, ring)
  {
    var w := region.maximum.x - region.minimum.x;
    var h := region.maximum.y - region.minimum.y;
    [Coord(0, 0), Coord(w, 0), Coord(w, h), Coord(0, h)]
  }

  /** The areas' polygons, each clipped to the tile in local coordinates, in order. */
  function AreaRings(region: URRegion, areas: seq<AreaEntry>): GeometryCollection {
    if |areas| == 0 then []
    else AreaRings(region, areas[..|areas| - 1]) + ClippedPolygon(region, areas[|areas| - 1].mapItem)
  }

  lemma {:induction false} AreaRingsInTile(region: URRegion, areas: seq<AreaEntry>)
    ensures RingsInTile(region, AreaRings(region, areas))
  {
    if |areas| > 0 {
      AreaRingsInTile(region, areas[..|areas| - 1]);
      ClippedPolygonInTile(region, areas[|areas| - 1].mapItem);
      RingsInTileConcat(region, AreaRings(region, areas[..|areas| - 1]), ClippedPolygon(region, areas[|areas| - 1].mapItem));
    }
  }

  /** The rings of the water feature: the tile itself, then the clipped land
      areas, then the clipped water areas. Every vertex lies within the tile. */
  function WaterGeometries(region: URRegion, landAreas: seq<AreaEntry>, waterAreas: seq<AreaEntry>): (geometry: GeometryCollection)
    ensures WellFormed(region) ==> RingsInTile(region, geometry)
  {
    AreaRingsInTile(region, landAreas);
    AreaRingsInTile(region, waterAreas);
    RingsInTileConcat(region, [TileRing(region)], AreaRings(region, landAreas));
    RingsInTileConcat(region, [TileRing(region)] + AreaRings(region, landAreas), AreaRings(region, waterAreas));
    [TileRing(region)] + AreaRings(region, landAreas) + AreaRings(region, waterAreas)
  }

  class UrtVectorTileWaterFeature {
    const region: URRegion
    var landAreas: seq<AreaEntry>
    var waterAreas: seq<AreaEntry>

    /** A new water feature has no land and no water areas. */
    constructor(region: URRegion)
      ensures this.region == region && landAreas == [] && waterAreas == []
    {
      this.region := region;
      landAreas := [];
      waterAreas := [];
    }

    /** Appends one land area with its proxy-tile flag; the water areas are untouched. */
    method AddLandArea(landArea: MapItem, fromProxyTile: bool)
      modifies this
      ensures landAreas == old(landAreas) + [AreaEntry(landArea, fromProxyTile)]
      ensures waterAreas == old(waterAreas)
    {
      landAreas := landAreas + [AreaEntry(landArea, fromProxyTile)];
    }

    /** Appends the entries from `first` up to, not including, `last` of the
        source list, in order; the land areas are untouched. */
    method AddWaterAreas(source: seq<AreaEntry>, first: nat, last: nat)
      requires first <= last <= |source|
      modifies this
      ensures waterAreas == old(waterAreas) + source[first..last]
      ensures |waterAreas| == |old(waterAreas)| + (last - first)
      ensures landAreas == old(landAreas)
    {
      var it := first;
      while it < last
        invariant first <= it <= last
        invariant waterAreas == old(waterAreas) + source[first..it]
        invariant landAreas == old(landAreas)
      {
        assert source[first..it + 1] == source[first..it] + [source[it]];
        waterAreas := waterAreas + [source[it]];
        it := it + 1;
      }
    }

    /** `getGeometries`: the feature's rings, all within the tile. */
    function GetGeometries(): (geometry: GeometryCollection)
      reads this
      ensures WellFormed(region) ==> RingsInTile(region, geometry)
      ensures |geometry| >= 1 && geometry[0] == TileRing(region)
    {
      WaterGeometries(region, landAreas, waterAreas)
    }

    /** The feature as the layer holds it once it is complete. */
    function AsTileFeature(): TileFeature
      reads this
    {
      WaterFeature(region, landAreas, waterAreas)
    }
  }
}
