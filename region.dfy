/** Integer coordinates and the axis-aligned tile region: the value type
    `URRegion` with its containment, segment-intersection, expansion and
    centre operations, and the global-to-local coordinate translation. */
module Region {

  /** A point of the map-data store's fixed-precision coordinate space. */
  datatype Coord = Coord(x: int, y: int)

  /** An axis-aligned rectangle given by its minimum and maximum corners. */
  datatype URRegion = URRegion(minimum: Coord, maximum: Coord)

  function Min(a: int, b: int): int { if a <= b then a else b }
  function Max(a: int, b: int): int { if a <= b then b else a }

  /** The corners are ordered on both axes, so the region holds at least one point. */
  predicate WellFormed(region: URRegion) {
    region.minimum.x <= region.maximum.x && region.minimum.y <= region.maximum.y
  }

  /** Containment is inclusive: a point on the boundary belongs to the region. */
  predicate URRegionContainsCoord(region: URRegion, c: Coord) {
    region.minimum.x <= c.x <= region.maximum.x && region.minimum.y <= c.y <= region.maximum.y
  }

  /** `inner`'s corners lie within `outer`'s corners on both axes. */
  predicate RegionWithin(inner: URRegion, outer: URRegion) {
    outer.minimum.x <= inner.minimum.x && outer.minimum.y <= inner.minimum.y &&
    inner.maximum.x <= outer.maximum.x && inner.maximum.y <= outer.maximum.y
  }

  // ---------------------------------------------------------------------------
  // Segment / rectangle intersection
  // ---------------------------------------------------------------------------

  /** Twice the signed area of the triangle (a, b, p): positive when p is to
      the left of the directed line a -> b, zero when p is on it. */
  function Side(a: Coord, b: Coord, p: Coord): int {
    (b.x - a.x) * (p.y - a.y) - (b.y - a.y) * (p.x - a.x)
  }

  function Corner(region: URRegion, highX: bool, highY: bool): Coord {
    Coord(if highX then region.maximum.x else region.minimum.x,
          if highY then region.maximum.y else region.minimum.y)
  }

  /** All four corners of the region lie strictly on one side of the line through a and b. */
  predicate CornersOnOneSide(region: URRegion, a: Coord, b: Coord) {
    var s00 := Side(a, b, Corner(region, false, false));
    var s10 := Side(a, b, Corner(region, true, false));
    var s11 := Side(a, b, Corner(region, true, true));
    var s01 := Side(a, b, Corner(region, false, true));
    (s00 > 0 && s10 > 0 && s11 > 0 && s01 > 0) || (s00 < 0 && s10 < 0 && s11 < 0 && s01 < 0)
  }

  /** The bounding box of the segment meets the region. */
  predicate BoundsOverlap(region: URRegion, a: Coord, b: Coord) {
    Min(a.x, b.x) <= region.maximum.x && region.minimum.x <= Max(a.x, b.x) &&
    Min(a.y, b.y) <= region.maximum.y && region.minimum.y <= Max(a.y, b.y)
  }

  /** The closed segment first-second shares a point with the closed region:
      the separating-axis test for a segment against a box, in exact integer
      arithmetic (the two box axes and the segment's normal). */
  predicate URRegionIntersectsLine(region: URRegion, first: Coord, second: Coord) {
    BoundsOverlap(region, first, second) && !CornersOnOneSide(region, first, second)
  }

  lemma MulNonNeg(a: int, b: int)
    requires a >= 0 && b >= 0
    ensures a * b >= 0
  {
  }

  /** Moving the point from q to p changes its side by the cross product of the
      direction with the move. */
  lemma SideShift(a: Coord, b: Coord, p: Coord, q: Coord)
    ensures Side(a, b, p) - Side(a, b, q) == (b.x - a.x) * (p.y - q.y) - (b.y - a.y) * (p.x - q.x)
  {
    var dx, dy := b.x - a.x, b.y - a.y;
    assert dx * (p.y - a.y) - dx * (q.y - a.y) == dx * (p.y - q.y);
    assert dy * (p.x - a.x) - dy * (q.x - a.x) == dy * (p.x - q.x);
  }

  /** Scaling a move towards the end of [lo, hi] that d points away from, or towards. */
  lemma ProductTowards(d: int, lo: int, hi: int, q: int)
    requires lo <= q <= hi
    ensures d * ((if d < 0 then hi else lo) - q) <= 0
    ensures d * ((if d >= 0 then hi else lo) - q) >= 0
  {
    if d >= 0 {
      MulNonNeg(d, q - lo);
      MulNonNeg(d, hi - q);
      assert d * (lo - q) == -(d * (q - lo));
    } else {
      MulNonNeg(-d, hi - q);
      MulNonNeg(-d, q - lo);
      assert d * (hi - q) == -((-d) * (hi - q));
      assert d * (lo - q) == (-d) * (q - lo);
    }
  }

  /** For a point q of the region some corner is on q's side of the line or
      on it, looking in either direction: Side is linear in its third argument,
      so over the box it takes its extremes at corners. */
  lemma {:induction false} CornersBracket(region: URRegion, a: Coord, b: Coord, q: Coord)
    requires URRegionContainsCoord(region, q)
    ensures Side(a, b, Corner(region, b.y - a.y >= 0, b.x - a.x < 0)) <= Side(a, b, q)
    ensures Side(a, b, Corner(region, b.y - a.y < 0, b.x - a.x >= 0)) >= Side(a, b, q)
  {
    var dx, dy := b.x - a.x, b.y - a.y;
    var lo := Corner(region, dy >= 0, dx < 0);
    var hi := Corner(region, dy < 0, dx >= 0);
    SideShift(a, b, lo, q);
    SideShift(a, b, hi, q);
    ProductTowards(dx, region.minimum.y, region.maximum.y, q.y);
    ProductTowards(dy, region.minimum.x, region.maximum.x, q.x);
    assert lo.y == (if dx < 0 then region.maximum.y else region.minimum.y);
    assert lo.x == (if dy >= 0 then region.maximum.x else region.minimum.x);
    assert hi.y == (if dx >= 0 then region.maximum.y else region.minimum.y);
    assert hi.x == (if dy < 0 then region.maximum.x else region.minimum.x);
  }

  /** A segment with an endpoint inside the region intersects it. */
  lemma {:induction false} EndpointInRegionIntersects(region: URRegion, first: Coord, second: Coord)
    requires URRegionContainsCoord(region, first) || URRegionContainsCoord(region, second)
    ensures URRegionIntersectsLine(region, first, second)
  {
    var q := if URRegionContainsCoord(region, first) then first else second;
    assert Side(first, second, first) == 0;
    assert Side(first, second, second) == 0;
    CornersBracket(region, first, second, q);
  }

  /** Reversing the direction of the line flips the side of every point. */
  lemma SideReversed(a: Coord, b: Coord, p: Coord)
    ensures Side(b, a, p) == -Side(a, b, p)
  {
    var u, v := p.x - a.x, p.y - a.y;
    var dx, dy := b.x - a.x, b.y - a.y;
    assert Side(a, b, p) == dx * v - dy * u;
    assert Side(b, a, p) == (-dx) * (v - dy) - (-dy) * (u - dx);
    assert (-dx) * (v - dy) == -(dx * v) + dx * dy;
    assert (-dy) * (u - dx) == -(dy * u) + dy * dx;
  }

  /** The test does not depend on the direction of the segment. */
  lemma {:induction false} IntersectsLineSymmetric(region: URRegion, a: Coord, b: Coord)
    ensures URRegionIntersectsLine(region, a, b) == URRegionIntersectsLine(region, b, a)
  {
    SideReversed(a, b, Corner(region, false, false));
    SideReversed(a, b, Corner(region, true, false));
    SideReversed(a, b, Corner(region, true, true));
    SideReversed(a, b, Corner(region, false, true));
  }

  /** A segment lying entirely on the outer side of one edge of the region misses it. */
  lemma SegmentBesideRegionMisses(region: URRegion, first: Coord, second: Coord)
    requires (first.x < region.minimum.x && second.x < region.minimum.x) ||
             (first.x > region.maximum.x && second.x > region.maximum.x) ||
             (first.y < region.minimum.y && second.y < region.minimum.y) ||
             (first.y > region.maximum.y && second.y > region.maximum.y)
    ensures !URRegionIntersectsLine(region, first, second)
  {
  }

  // ---------------------------------------------------------------------------
  // Expansion and centre
  // ---------------------------------------------------------------------------

  /** `URRegionExpand` updates the region it is given in place; here the
      updated region is returned. It is the least region whose corners enclose
      both the old corners and `c`. */
  method URRegionExpand(region: URRegion, c: Coord) returns (expanded: URRegion)
    ensures URRegionContainsCoord(expanded, c)
    ensures RegionWithin(region, expanded)
    ensures forall other :: URRegionContainsCoord(other, c) && RegionWithin(region, other) ==> RegionWithin(expanded, other)
  {
    expanded := region;
    if c.x < expanded.minimum.x { expanded := expanded.(minimum := expanded.minimum.(x := c.x)); }
    if c.y < expanded.minimum.y { expanded := expanded.(minimum := expanded.minimum.(y := c.y)); }
    if c.x > expanded.maximum.x { expanded := expanded.(maximum := expanded.maximum.(x := c.x)); }
    if c.y > expanded.maximum.y { expanded := expanded.(maximum := expanded.maximum.(y := c.y)); }
  }

  /** Every point the region contained before expansion is still contained. */
  lemma WithinKeepsContainment(inner: URRegion, outer: URRegion, p: Coord)
    requires RegionWithin(inner, outer) && URRegionContainsCoord(inner, p)
    ensures URRegionContainsCoord(outer, p)
  {
  }

  /** C's `/ 2`, which truncates toward zero. */
  function HalfTowardZero(s: int): int {
    if s >= 0 then s / 2 else -((-s) / 2)
  }

  /** The midpoint of the region's corners, halved as C's integer division does. */
  function URRegionCenter(region: URRegion): (c: Coord)
    ensures -1 <= 2 * c.x - (region.minimum.x + region.maximum.x) <= 1
    ensures -1 <= 2 * c.y - (region.minimum.y + region.maximum.y) <= 1
    ensures WellFormed(region) ==> URRegionContainsCoord(region, c)
  {
    Coord(HalfTowardZero(region.minimum.x + region.maximum.x),
          HalfTowardZero(region.minimum.y + region.maximum.y))
  }

  // ---------------------------------------------------------------------------
  // Local coordinates
  // ---------------------------------------------------------------------------

  /** The global coordinate expressed relative to `origin`. */
  function LocalCoordWithOrigin(globalCoord: Coord, origin: Coord): (c: Coord)
    ensures c.x + origin.x == globalCoord.x && c.y + origin.y == globalCoord.y
  {
    Coord(globalCoord.x - origin.x, globalCoord.y - origin.y)
  }

  /** The inverse translation, from local back to global coordinates. */
  function GlobalCoordWithOrigin(localCoord: Coord, origin: Coord): Coord {
    Coord(localCoord.x + origin.x, localCoord.y + origin.y)
  }

  /** Translating to local coordinates and back is the identity, and so is the reverse. */
  lemma LocalGlobalRoundTrip(c: Coord, origin: Coord)
    ensures GlobalCoordWithOrigin(LocalCoordWithOrigin(c, origin), origin) == c
    ensures LocalCoordWithOrigin(GlobalCoordWithOrigin(c, origin), origin) == c
  {
  }

  /** The origin itself becomes (0, 0). */
  lemma OriginIsLocalZero(origin: Coord)
    ensures LocalCoordWithOrigin(origin, origin) == Coord(0, 0)
  {
  }

  /** A point inside the region lies, relative to the region's minimum, in [0, maximum - minimum]. */
  predicate InTileExtent(region: URRegion, c: Coord) {
    0 <= c.x <= region.maximum.x - region.minimum.x && 0 <= c.y <= region.maximum.y - region.minimum.y
  }

  lemma LocalCoordInTile(region: URRegion, c: Coord)
    ensures URRegionContainsCoord(region, c) <==> InTileExtent(region, LocalCoordWithOrigin(c, region.minimum))
  {
  }
}
