/** The water layer: it sorts the areal items of a tile into land and water
    while the tile is loaded, and builds the single water feature when loading
    is finished. */
module WaterTileLayer {
  import opened Region
  import opened Feature
  import opened TileLayer
  import opened WaterFeature

  /** Items of this type are water; every other areal item counts as land. */
  predicate IsWaterType(t: ItemType) {
    t == TypePolyWater
  }

  /** The layer extends the base tile layer; the base part is held as `layer`. */
  class WaterTileLayer {
    const layer: UrtTileLayer
    var landFeatures: seq<AreaEntry>
    var waterFeatures: seq<AreaEntry>
    var groundType: ItemType

    /** A new water layer has no ground type and nothing sorted yet. */
    constructor(name: string, region: URRegion)
      ensures fresh(layer)
      ensures layer.name == name && layer.region == region && layer.features == []
      ensures groundType == TypeNone && landFeatures == [] && waterFeatures == []
    {
      layer := new UrtTileLayer(BaseLayer, name, region);
      groundType := TypeNone;
      landFeatures := [];
      waterFeatures := [];
    }

    /** Files the item, with its proxy-tile flag, under water or land by its
        type, leaving the other list and the ground type as they were. */
    method AddMapItem(mapItem: MapItem, fromProxyTile: bool)
      modifies this
      ensures IsWaterType(mapItem.itemType) ==>
        waterFeatures == old(waterFeatures) + [AreaEntry(mapItem, fromProxyTile)] &&
        landFeatures == old(landFeatures)
      ensures !IsWaterType(mapItem.itemType) ==>
        landFeatures == old(landFeatures) + [AreaEntry(mapItem, fromProxyTile)] &&
        waterFeatures == old(waterFeatures)
      ensures |landFeatures| + |waterFeatures| == |old(landFeatures)| + |old(waterFeatures)| + 1
      ensures groundType == old(groundType)
    {
      if IsWaterType(mapItem.itemType) {
        waterFeatures := waterFeatures + [AreaEntry(mapItem, fromProxyTile)];
      } else {
        landFeatures := landFeatures + [AreaEntry(mapItem, fromProxyTile)];
      }
    }

    /** Records the type of the ground that covers the whole tile. */
    method SetWholeGroundType(groundType: ItemType)
      modifies this
      ensures this.groundType == groundType
      ensures landFeatures == old(landFeatures) && waterFeatures == old(waterFeatures)
    {
      this.groundType := groundType;
    }

    /** Builds the water feature from every land area and every water area, in
        the order they were added, and appends it to the layer's features. */
    method FinalizeInternalItems()
      modifies layer
      ensures layer.features == old(layer.features) + [WaterFeature(layer.region, landFeatures, waterFeatures)]
    {
      var feature := new UrtVectorTileWaterFeature(layer.region);
      var i := 0;
      while i < |landFeatures|
        invariant 0 <= i <= |landFeatures|
        invariant feature.landAreas == landFeatures[..i] && feature.waterAreas == []
        invariant layer.features == old(layer.features)
      {
        assert landFeatures[..i + 1] == landFeatures[..i] + [landFeatures[i]];
        feature.AddLandArea(landFeatures[i].mapItem, landFeatures[i].fromProxyTile);
        i := i + 1;
      }
      assert landFeatures[..i] == landFeatures;
      feature.AddWaterAreas(waterFeatures, 0, |waterFeatures|);
      assert waterFeatures[0..|waterFeatures|] == waterFeatures;
      assert feature.landAreas == landFeatures && feature.waterAreas == waterFeatures;
      assert feature.AsTileFeature() == WaterFeature(layer.region, landFeatures, waterFeatures);
      layer.features := layer.features + [feature.AsTileFeature()];
    }
  }
}
