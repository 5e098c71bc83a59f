/** A tile layer: a named collection of features built from the map items that
    the tile loader hands it, one at a time. */
module TileLayer {
  import opened Region
  import opened Feature

  /** Which of the layer classes a layer is; each builds its own kind of feature. */
  datatype LayerKind = BaseLayer | RoadLabelLayer | RoadLayer | PlaceLayer

  /** The feature class built for a map item. */
  datatype FeatureKind = PlainFeature | RoadLabelFeature | RoadFeature | PlaceLabelFeature

  /** A feature owned by a layer. A feature is not changed once it has been
      added, so it is held as a value: an item feature remembers its map item,
      the tile region and whether the item came from a proxy tile; a water
      feature holds the land and water areas it is built from. */
  datatype TileFeature =
    | ItemFeature(kind: FeatureKind, mapItem: MapItem, region: URRegion, fromProxyTile: bool)
    | WaterFeature(region: URRegion, landAreas: seq<AreaEntry>, waterAreas: seq<AreaEntry>)

  /** The feature class each layer class builds in `addMapItem`. */
  function FeatureKindOf(kind: LayerKind): FeatureKind {
    match kind
    case BaseLayer => PlainFeature
    case RoadLabelLayer => RoadLabelFeature
    case RoadLayer => RoadFeature
    case PlaceLayer => PlaceLabelFeature
  }

  class UrtTileLayer {
    const kind: LayerKind
    const name: string
    const region: URRegion
    var features: seq<TileFeature>

    /** A new layer keeps its name and region and has no features. */
    constructor(kind: LayerKind, name: string, region: URRegion)
      ensures this.kind == kind && this.name == name && this.region == region
      ensures features == []
    {
      this.kind := kind;
      this.name := name;
      this.region := region;
      features := [];
    }

    /** Builds a feature for the item and appends it; the features already
        present keep their places. */
    method AddMapItem(mapItem: MapItem, fromProxyTile: bool)
      modifies this
      ensures features == old(features) + [ItemFeature(FeatureKindOf(kind), mapItem, region, fromProxyTile)]
      ensures FeatureCount() == old(FeatureCount()) + 1
      ensures forall i :: 0 <= i < old(FeatureCount()) ==> GetFeature(i) == old(GetFeature(i))
    {
      features := features + [ItemFeature(FeatureKindOf(kind), mapItem, region, fromProxyTile)];
    }

    /** Called when no more items will be added; the base layer has nothing to do. */
    method FinalizeInternalItems()
      modifies this
      ensures features == old(features)
    {
    }

    function FeatureCount(): (n: nat)
      reads this
      ensures n == |features|
    {
      |features|
    }

    /** The i-th feature, defined only for an index below the feature count. */
    function GetFeature(i: nat): (f: TileFeature)
      requires i < FeatureCount()
      reads this
      ensures f == features[i]
    {
      features[i]
    }

    function GetName(): (n: string)
      reads this
      ensures n == name
    {
      name
    }
  }
}
