# Tile geometry core of the map-data ("urt") vector tile source

This project models the geometry core that turns raw map items from the
offline map-data store into Mapbox vector-tile features. It is written in
Dafny, and the properties the core relies on are proved about that model.

- **Region** (`region.dfy`): the axis-aligned tile region `URRegion`. It covers inclusive
  containment, the segment/region intersection test, in-place expansion to take
  in a coordinate, the centre, and translation from global coordinates to the
  tile's local coordinates.
- **RayClipper** (`rayclipper.dfy`): the polygon type and the two clipper operations.
  - `RayClipPolygon` clips a contour to a rectangle. It makes four
    Sutherland–Hodgman passes, with C integer interpolation at each crossing,
    and then cleans the result.
  - `CleanPolygon` drops repeated and closing points, and empties contours
    with fewer than three distinct points.
- **Feature** (`feature.dfy`): the shared feature helpers.
  - The ranges of an item's coordinates whose segments meet the tile.
  - Conversion to local coordinates.
  - The even-odd point-in-polygon test, with a point on an edge counting as inside.
  - Assignment of clipped holes to the smallest clipped outer ring that
    contains them.
  - The clipped polygon of an areal item in local coordinates.
- **RoadLabel** (`road_label.dfy`): a road label runs along the longest relevant
  section of the road. It is drawn only when that section is long enough.
- **TileLayer** (`tile_layer.dfy`): the layer class. It holds a name, a region and
  a growing list of features, one built per added map item by the layer class's
  own feature kind.
- **WaterFeature** and **WaterTileLayer** (`water_feature.dfy`,
  `water_tile_layer.dfy`):
  - The water layer sorts areal items into land and water lists.
  - When loading ends, it builds one water feature from both lists. That
    feature's geometry stays within the tile.

The header files declare the operations but their bodies are not part of this
model. Where a declaration leaves the algorithm open, the model fixes one and
says so under "Left out". Coordinates are unbounded integers. Each in-place
update in the source is a Dafny method:
- a class field assignment (layers, water feature);
- a returned value in place of a reference parameter (`URRegionExpand`,
  `CleanPolygon`, `RayClipPolygon`, `AssignHolesToOuterPolygons`).

Methods that compute a value are proved equal to a specification function, and
the properties are proved about those functions. `URRegionExpand` states its
result directly, as the least region enclosing the old one and the coordinate.
The methods of the layer and water-feature classes state the new value of every
field they change.

## Model

| member | source | states |
|---|---|---|
| Region.EndpointInRegionIntersects | src/mbgl/urt/urt_region.hpp:22-23 | `URRegionIntersectsLine` is true for a segment with an endpoint that `URRegionContainsCoord` places in the region |
| Region.IntersectsLineSymmetric | src/mbgl/urt/urt_region.hpp:23 | the intersection test does not depend on the direction of the segment |
| Region.SegmentBesideRegionMisses | src/mbgl/urt/urt_region.hpp:23 | a segment lying wholly beyond one side of the region does not intersect it |
| Region.URRegionExpand | src/mbgl/urt/urt_region.hpp:24 | the expanded region contains the coordinate and the old region, and lies within every region that does both |
| Region.WithinKeepsContainment | src/mbgl/urt/urt_region.hpp:22-24 | every coordinate contained before expansion is still contained |
| Region.URRegionCenter | src/mbgl/urt/urt_region.hpp:25 | the centre is within half a unit of the corners' midpoint on each axis, and a well-formed region contains it |
| Region.LocalCoordWithOrigin | src/mbgl/urt/urt_region.hpp:28-34 | the local coordinate plus the origin is the global coordinate, componentwise |
| Region.LocalGlobalRoundTrip | src/mbgl/urt/urt_region.hpp:28-34 | translating to local coordinates and back, or back and then to local, is the identity |
| Region.OriginIsLocalZero | src/mbgl/urt/urt_region.hpp:28-34 | the origin translates to (0, 0) |
| Region.LocalCoordInTile | src/mbgl/urt/urt_region.hpp:14-34 | `URRegionContainsCoord` (boundary included) holds for a coordinate exactly when its local coordinate (origin = minimum) lies in [0, maximum - minimum] on both axes |
| RayClipper.DefaultPolygon | src/mbgl/urt/rayclipper.h:30 | a default polygon has no points and no holes |
| RayClipper.PolygonFromContour | src/mbgl/urt/rayclipper.h:31 | the polygon holds exactly the contour's points in order, with no holes |
| RayClipper.CleanContourSound | src/mbgl/urt/rayclipper.h:35 | cleaned contours have no equal neighbours (cyclically), hold 0 or at least 3 points, are a subsequence of the input and, when non-empty, keep every input point; a contour is emptied exactly when it has fewer than three distinct points |
| RayClipper.BackAndForthCollapses | src/mbgl/urt/rayclipper.h:35 | a contour going back and forth between two points cleans to nothing |
| RayClipper.CleanContourIdempotent | src/mbgl/urt/rayclipper.h:35 | cleaning a cleaned contour changes nothing |
| RayClipper.CleanPolygon | src/mbgl/urt/rayclipper.h:35 | the output is the cleaned contour with the holes kept, free of repeated neighbours, of size 0 or at least 3, a subsequence of the input, and empty exactly when the input has fewer than three distinct points |
| RayClipper.IntersectPlacement | src/mbgl/urt/rayclipper.h:34 | a crossing point lies on the kept side of the edge and between the segment's ends |
| RayClipper.ClipAgainstEdge | src/mbgl/urt/rayclipper.h:34 | one pass puts every point on the kept side of the edge and leaves a contour already on that side unchanged |
| RayClipper.RayClipInRect | src/mbgl/urt/rayclipper.h:23-34 | every vertex of every output polygon satisfies l <= p <= h on both axes |
| RayClipper.RayClipInsideIsCleanup | src/mbgl/urt/rayclipper.h:34 | a polygon wholly inside the rectangle clips to its own cleaned contour |
| RayClipper.RayClipOutsideIsEmpty | src/mbgl/urt/rayclipper.h:34 | a polygon wholly left of the rectangle clips to nothing |
| RayClipper.BoxClipsToRect | src/mbgl/urt/rayclipper.h:34 | an axis-aligned box reaching past every side of a rectangle of positive size clips to exactly that rectangle |
| RayClipper.SquareClipsToRect | src/mbgl/urt/rayclipper.h:34 | a square reaching past all four sides of (0,0)-(100,100) clips to exactly that rectangle |
| RayClipper.RayClipPolygon | src/mbgl/urt/rayclipper.h:34 | the output is 0 or 1 hole-free polygons, clean and within the rectangle; an input inside the rectangle comes back cleaned |
| Feature.RelevantRangesSound | src/mbgl/urt/urt_vector_tile_feature.hpp:41-42 | ranges hold at least two points, end within the item, come in increasing order without overlap, and a segment lies in some range exactly when it meets the region |
| Feature.RelevantRangesMaximal | src/mbgl/urt/urt_vector_tile_feature.hpp:42 | every range is bordered by segments that miss the region, or by the item's ends |
| Feature.RelevantCoordinateRangesInTileRect | src/mbgl/urt/urt_vector_tile_feature.hpp:41-42 | the one-pass scan returns the relevant ranges, with the ordering and coverage above |
| Feature.LineThroughTileIsOneRange | src/mbgl/urt/urt_vector_tile_feature.hpp:42 | a line crossing the tile from left to right is one range holding all its points |
| Feature.ConvertToMapboxCoordinates | src/mbgl/urt/urt_vector_tile_feature.hpp:43 | the length and order are kept, and each point is translated by the region minimum |
| Feature.ConvertRoundTrip | src/mbgl/urt/urt_vector_tile_feature.hpp:43 | converting back to global coordinates recovers the input |
| Feature.ConvertInTile | src/mbgl/urt/urt_vector_tile_feature.hpp:43 | points contained in the region convert to points within the tile's extent |
| Feature.GetMapboxCoordinatesInRange | src/mbgl/urt/urt_vector_tile_feature.hpp:44 | the result is the converted slice coords[start .. start + length), in order |
| Feature.PointInPolygon | src/mbgl/urt/urt_vector_tile_feature.hpp:48 | the answer is true exactly when the point lies on an edge or the ray from it crosses the boundary an odd number of times |
| Feature.VertexContained | src/mbgl/urt/urt_vector_tile_feature.hpp:48 | every vertex of a polygon is contained in it |
| Feature.OutsideVerticalExtent | src/mbgl/urt/urt_vector_tile_feature.hpp:48 | a point strictly above or strictly below every vertex is not contained |
| Feature.OwnerAmongCharacterised | src/mbgl/urt/urt_vector_tile_feature.hpp:49-50 | a hole's owner is a containing outer ring of least area, the first such, and there is none exactly when no outer ring contains it |
| Feature.FindOwner | src/mbgl/urt/urt_vector_tile_feature.hpp:49-50 | scanning the outer rings in order finds that owner |
| Feature.AssignHolesSound | src/mbgl/urt/urt_vector_tile_feature.hpp:49-50 | a hole goes to at most one outer ring. That ring contains its first vertex, edges included, and no such ring is smaller. A hole whose first vertex lies inside or on some outer ring is never dropped |
| Feature.BorderHoleIsKept | src/mbgl/urt/urt_vector_tile_feature.hpp:49-50 | a hole cut at the tile's right border, its first vertex on that border, is kept by the outline that fills the tile |
| Feature.AssignHolesToOuterPolygons | src/mbgl/urt/urt_vector_tile_feature.hpp:49-50 | the output is each outer ring followed by the holes it owns, in order |
| Feature.ClippedPolygonInTile | src/mbgl/urt/urt_vector_tile_feature.hpp:45 | every coordinate of the clipped polygon lies in [0, maximum - minimum] on both axes |
| Feature.ClippedPolygonInLocalCoords | src/mbgl/urt/urt_vector_tile_feature.hpp:45 | the result is the clipped outline and holes, converted to local coordinates, with the holes assigned; all of it lies within the tile |
| RoadLabel.PathLengthTranslationInvariant | src/mbgl/urt/urt_vector_tile_road_label_feature.hpp:31 | a section measures the same in global and local coordinates |
| RoadLabel.PathLengthAtLeastSpan | src/mbgl/urt/urt_vector_tile_road_label_feature.hpp:31 | a section is at least as long as the distance between its ends |
| RoadLabel.LongestIndexCharacterised | src/mbgl/urt/urt_vector_tile_road_label_feature.hpp:30-32 | the chosen range is a longest one, earlier ranges are strictly shorter, and its length is the maximum |
| RoadLabel.LongestSectionSound | src/mbgl/urt/urt_vector_tile_road_label_feature.hpp:30-32 | `LongestSection` is one of the relevant ranges, or (0, 0) if there are none. No relevant range is longer by `DistanceOfSection`, and `DistanceOfLongestSection` is its length |
| RoadLabel.NoSectionNoRender | src/mbgl/urt/urt_vector_tile_road_label_feature.hpp:26-30 | an item with no relevant range is not rendered |
| RoadLabel.ShouldRenderIffLongSection | src/mbgl/urt/urt_vector_tile_road_label_feature.hpp:26-32 | `ShouldRender` is true exactly when some relevant section is longer than the minimum |
| RoadLabel.GetGeometries | src/mbgl/urt/urt_vector_tile_road_label_feature.hpp:24-30 | the geometry is empty without relevant ranges; otherwise it is the longest section's points in local coordinates, in source order |
| TileLayer.UrtTileLayer.constructor | src/mbgl/urt/urt_tile_layer.hpp:23 | the layer stores its name and region and starts with no features |
| TileLayer.UrtTileLayer.AddMapItem | src/mbgl/urt/urt_tile_layer.hpp:24 | exactly one feature for the item is appended; earlier features keep their places |
| TileLayer.UrtTileLayer.FinalizeInternalItems | src/mbgl/urt/urt_tile_layer.hpp:25 | the base layer's features are unchanged |
| TileLayer.UrtTileLayer.FeatureCount | src/mbgl/urt/urt_tile_layer.hpp:27 | the count is the number of features |
| TileLayer.UrtTileLayer.GetFeature | src/mbgl/urt/urt_tile_layer.hpp:28 | defined only below the feature count; returns the feature at that index |
| TileLayer.UrtTileLayer.GetName | src/mbgl/urt/urt_tile_layer.hpp:29 | the name given to the constructor |
| WaterFeature.UrtVectorTileWaterFeature.constructor | src/mbgl/urt/urt_vector_tile_water_feature.hpp:20 | a new water feature has no land and no water areas |
| WaterFeature.UrtVectorTileWaterFeature.AddLandArea | src/mbgl/urt/urt_vector_tile_water_feature.hpp:23 | appends exactly (item, flag) to the land areas; the water areas are unchanged |
| WaterFeature.UrtVectorTileWaterFeature.AddWaterAreas | src/mbgl/urt/urt_vector_tile_water_feature.hpp:24 | appends source[first .. last) in order, growing the water areas by last - first; the land areas are unchanged |
| WaterFeature.WaterGeometries | src/mbgl/urt/urt_vector_tile_water_feature.hpp:27 | every vertex of the water geometry lies within the tile in local coordinates |
| WaterFeature.UrtVectorTileWaterFeature.GetGeometries | src/mbgl/urt/urt_vector_tile_water_feature.hpp:27 | the feature's rings lie within the tile, the whole tile's ring first |
| WaterTileLayer.WaterTileLayer.constructor | src/mbgl/urt/urt_water_tile_layer.hpp:21 | a new water layer has ground type none and empty land and water lists |
| WaterTileLayer.WaterTileLayer.AddMapItem | src/mbgl/urt/urt_water_tile_layer.hpp:22 | the (item, flag) pair is appended to exactly one of the two lists, chosen by the item's type; the other list and the ground type are unchanged |
| WaterTileLayer.WaterTileLayer.SetWholeGroundType | src/mbgl/urt/urt_water_tile_layer.hpp:25 | the ground type is set; both lists are unchanged |
| WaterTileLayer.WaterTileLayer.FinalizeInternalItems | src/mbgl/urt/urt_water_tile_layer.hpp:23 | one water feature holding every land and water area, in insertion order, is appended to the layer |

## Left out

- `URRegionMake` and `URRegionForTileName` are not modelled. They read the store's own `Region` record and parse a tile-name format, and neither is part of this model.
- Integer widths are not modelled. Coordinates are unbounded, so the 32-bit store coordinates, the 16-bit tile geometry coordinates and any overflow in the intersection test, the interpolation or the shoelace sum are out of scope.
- The operation bodies are not part of this model. For each one the model fixes an algorithm consistent with its declaration and name:
  - the intersection test is the exact separating-axis test;
  - the clipper uses Sutherland–Hodgman passes in the order x >= l.x, x <= h.x, y >= l.y, y <= h.y;
  - the point-in-polygon test is crossing parity, with a point on an edge counted as inside;
  - hole ownership uses the least doubled shoelace area.
- RayClipPolygon: returns at most one polygon. Where a concave polygon would fall apart into several pieces inside the rectangle, the model keeps one ring whose pieces are joined by edges along the rectangle's boundary. Holes of the input polygon are not clipped; the feature code clips hole contours separately.
- Feature.AssignHolesSound: whether an outer ring contains a hole is decided by the hole's first vertex alone, edges included. A hole that merely overlaps an outer ring is assigned by where that vertex falls, and a hole whose first vertex lies outside every outer ring is dropped.
- Feature.RelevantRangesSound: a run of the scan ends only at a segment that misses the tile. Two consecutive segments that each meet the tile stay in one range even when the point between them lies outside the tile, so a run is not split where its points leave the tile and re-enter it. Ranges carry no kind (internal or crossing).
- Tags and identity are not modelled: `getValue`, `getProperties`, `getID`, `GetMapboxTags` and the place-label feature map store attributes to tag values. `getType`, which is a constant per feature class, is also left out.
- `clone`, the `unique_ptr` ownership and the virtual class hierarchy are not modelled:
  - features are held as values;
  - the subclass layers are one class with a kind;
  - the water layer holds its base layer as a field.
- TileLayer.UrtTileLayer.GetFeature: returns the stored feature value rather than a fresh copy.
- TileLayer.UrtTileLayer.AddMapItem: for the road-label, road and place layers only the feature class chosen is modelled. Any filtering those overrides do, for instance dropping labels that should not render, is not part of this model.
- RoadLabel.PathLengthTranslationInvariant: sections are measured on the grid (|dx| + |dy|), not by the floating-point Euclidean length the source returns as a `double`.
- RoadLabel.ShouldRender: the minimum label length is a parameter, because the threshold's value is not part of this model.
- WaterFeature.WaterGeometries: only the output bound is stated. The land/water difference and union are not modelled; the geometry is the whole-tile ring, then the clipped land rings, then the clipped water rings.
- WaterTileLayer.WaterTileLayer.SetWholeGroundType: the ground type is recorded, but its effect on the water geometry is not modelled.
- WaterTileLayer.IsWaterType: only polygonal water counts as water, since the store's type codes are not part of this model; every other areal item is filed as land.
- The file sources, the tile loader, the tile data blobs and the render-source construction are not modelled: they are request, callback and lifecycle plumbing with no geometry in them.
