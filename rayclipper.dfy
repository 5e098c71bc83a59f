/** The ray clipper: polygons as a contour plus owned holes, clipping of a
    polygon against an axis-aligned rectangle (four Sutherland-Hodgman passes,
    one per half-plane of the rectangle) and polygon cleanup. */
module RayClipper {
  import opened Region

  /** The clip rectangle, `l` its low corner and `h` its high corner. */
  datatype Rect = Rect(l: Coord, h: Coord)

  type Contour = seq<Coord>

  /** A contour together with the hole polygons it owns. */
  datatype Polygon = Polygon(contour: Contour, holes: seq<Polygon>)

  /** `Polygon()`: the empty polygon. */
  function DefaultPolygon(): (p: Polygon)
    ensures |p.contour| == 0 && |p.holes| == 0
  {
    Polygon([], [])
  }

  /** `Polygon(contour)`: inserts the contour's points, in order, into a polygon without holes. */
  method PolygonFromContour(contour: Contour) returns (p: Polygon)
    ensures p.contour == contour && p.holes == []
  {
    var points: Contour := [];
    var i := 0;
    while i < |contour|
      invariant 0 <= i <= |contour|
      invariant points == contour[..i]
    {
      points := points + [contour[i]];
      i := i + 1;
    }
    p := Polygon(points, []);
  }

  // ---------------------------------------------------------------------------
  // Subsequences
  // ---------------------------------------------------------------------------

  /** `idx` picks, in increasing order, the positions of `b` that make up `a`. */
  ghost predicate SubsequenceAt(a: seq<Coord>, b: seq<Coord>, idx: seq<int>) {
    |idx| == |a| &&
    (forall i :: 0 <= i < |a| ==> 0 <= idx[i] < |b| && a[i] == b[idx[i]]) &&
    (forall i, j :: 0 <= i < j < |idx| ==> idx[i] < idx[j])
  }

  /** `a` is obtained from `b` by removing points only. */
  ghost predicate IsSubsequence(a: seq<Coord>, b: seq<Coord>) {
    exists idx :: SubsequenceAt(a, b, idx)
  }

  // ---------------------------------------------------------------------------
  // Cleanup
  // ---------------------------------------------------------------------------

  /** No point is followed directly by an equal point. */
  predicate NoRepeatedSuccessor(s: Contour) {
    forall i :: 0 <= i < |s| - 1 ==> s[i] != s[i + 1]
  }

  /** No two neighbouring points are equal, the last and the first counting as neighbours. */
  predicate NoRepeatedNeighbours(s: Contour) {
    NoRepeatedSuccessor(s) && (|s| > 1 ==> s[|s| - 1] != s[0])
  }

  /** The points of `s` with each run of equal consecutive points reduced to one. */
  function Dedup(s: Contour): Contour {
    if |s| == 0 then []
    else
      var d := Dedup(s[..|s| - 1]);
      if |d| > 0 && d[|d| - 1] == s[|s| - 1] then d else d + [s[|s| - 1]]
  }

  /** Drops trailing points that repeat the first point (the contour's closing point). */
  function DropClosing(d: Contour): Contour
    decreases |d|
  {
    if |d| > 1 && d[|d| - 1] == d[0] then DropClosing(d[..|d| - 1]) else d
  }

  /** The distinct points of a contour. */
  function PointSet(s: Contour): set<Coord> {
    set i | 0 <= i < |s| :: s[i]
  }

  /** The cleaned contour: repeated points removed, and collapsed to empty when
      fewer than three distinct points remain. */
  function CleanContour(s: Contour): Contour {
    var d := DropClosing(Dedup(s));
    if |PointSet(d)| < 3 then [] else d
  }

  lemma {:induction false} SubsetSize(a: set<Coord>, b: set<Coord>)
    requires a <= b
    ensures |a| <= |b|
  {
    if a != {} {
      var x :| x in a;
      SubsetSize(a - {x}, b - {x});
    }
  }

  /** A contour has no more distinct points than points. */
  lemma {:induction false} PointSetSize(s: Contour)
    ensures |PointSet(s)| <= |s|
  {
    if |s| > 0 {
      var init := s[..|s| - 1];
      PointSetSize(init);
      assert PointSet(s) == PointSet(init) + {s[|s| - 1]};
    }
  }

  lemma {:induction false} DedupShape(s: Contour)
    ensures |Dedup(s)| <= |s|
    ensures NoRepeatedSuccessor(Dedup(s))
    ensures |s| > 0 ==> |Dedup(s)| > 0 && Dedup(s)[0] == s[0] && Dedup(s)[|Dedup(s)| - 1] == s[|s| - 1]
    ensures forall p :: p in Dedup(s) <==> p in s
  {
    if |s| > 0 {
      var init := s[..|s| - 1];
      DedupShape(init);
      assert s == init + [s[|s| - 1]];
      if |init| > 0 {
        assert init[0] == s[0];
      }
    }
  }

  lemma {:induction false} DedupSubsequence(s: Contour)
    ensures IsSubsequence(Dedup(s), s)
  {
    if |s| == 0 {
      assert SubsequenceAt([], s, []);
    } else {
      var init := s[..|s| - 1];
      DedupSubsequence(init);
      var idx :| SubsequenceAt(Dedup(init), init, idx);
      var d := Dedup(init);
      if |d| > 0 && d[|d| - 1] == s[|s| - 1] {
        assert SubsequenceAt(Dedup(s), s, idx);
      } else {
        assert SubsequenceAt(Dedup(s), s, idx + [|s| - 1]);
      }
    }
  }

  /** Dedup leaves a contour without repeated successors unchanged. */
  lemma {:induction false} DedupFixpoint(s: Contour)
    requires NoRepeatedSuccessor(s)
    ensures Dedup(s) == s
  {
    if |s| > 0 {
      var init := s[..|s| - 1];
      assert NoRepeatedSuccessor(init);
      DedupFixpoint(init);
      if |init| > 0 {
        assert init[|init| - 1] == s[|s| - 2];
      }
      assert init + [s[|s| - 1]] == s;
    }
  }

  lemma {:induction false} DropClosingShape(d: Contour)
    ensures |DropClosing(d)| <= |d| && DropClosing(d) == d[..|DropClosing(d)|]
    ensures |d| > 0 ==> |DropClosing(d)| > 0
    ensures |DropClosing(d)| > 1 ==> DropClosing(d)[|DropClosing(d)| - 1] != DropClosing(d)[0]
    ensures forall p :: p in d ==> p in DropClosing(d)
    decreases |d|
  {
    if |d| > 1 && d[|d| - 1] == d[0] {
      var init := d[..|d| - 1];
      DropClosingShape(init);
      var r := DropClosing(init);
      assert r == d[..|r|];
      assert d == init + [d[0]];
      forall p | p in d ensures p in r {
        assert init[0] == d[0];
        if p != d[0] { assert p in init; }
      }
    }
  }

  /** A prefix of a subsequence is a subsequence. */
  lemma PrefixSubsequence(a: seq<Coord>, b: seq<Coord>, k: nat)
    requires IsSubsequence(a, b) && k <= |a|
    ensures IsSubsequence(a[..k], b)
  {
    var idx :| SubsequenceAt(a, b, idx);
    assert SubsequenceAt(a[..k], b, idx[..k]);
  }

  /** Removing repeated and closing points keeps the set of distinct points. */
  lemma CleanedPointSet(s: Contour)
    ensures PointSet(DropClosing(Dedup(s))) == PointSet(s)
  {
    var d := Dedup(s);
    DedupShape(s);
    DropClosingShape(d);
    var r := DropClosing(d);
    forall p | p in PointSet(s) ensures p in PointSet(r) {
      var i :| 0 <= i < |s| && s[i] == p;
      assert p in s;
      var k :| 0 <= k < |r| && r[k] == p;
    }
    forall p | p in PointSet(r) ensures p in PointSet(s) {
      var i :| 0 <= i < |r| && r[i] == p;
      assert r[i] == d[i];
      assert p in d;
      var k :| 0 <= k < |s| && s[k] == p;
    }
  }

  /** What `CleanPolygon` promises about the contour: no repeated neighbours,
      at least three points unless empty, only removals, no point value lost,
      and emptied exactly when the input has fewer than three distinct points. */
  lemma {:induction false} CleanContourSound(s: Contour)
    ensures NoRepeatedNeighbours(CleanContour(s))
    ensures |CleanContour(s)| == 0 || |CleanContour(s)| >= 3
    ensures IsSubsequence(CleanContour(s), s)
    ensures CleanContour(s) != [] ==> forall p :: p in CleanContour(s) <==> p in s
    ensures CleanContour(s) == [] <==> |PointSet(s)| < 3
  {
    var d := Dedup(s);
    DedupShape(s);
    DropClosingShape(d);
    var r := DropClosing(d);
    PointSetSize(r);
    CleanedPointSet(s);
    assert NoRepeatedSuccessor(r) by {
      forall i | 0 <= i < |r| - 1 ensures r[i] != r[i + 1] {
        assert r[i] == d[i] && r[i + 1] == d[i + 1];
      }
    }
    DedupSubsequence(s);
    PrefixSubsequence(d, s, |r|);
    if |PointSet(r)| < 3 {
      assert SubsequenceAt([], s, []);
    } else {
      forall p | p in r ensures p in d {
        var i :| 0 <= i < |r| && r[i] == p;
        assert d[i] == p;
      }
    }
  }

  /** A contour that only goes back and forth between two points collapses. */
  lemma BackAndForthCollapses(a: Coord, b: Coord)
    ensures CleanContour([a, b, a, b]) == []
  {
    var s := [a, b, a, b];
    CleanContourSound(s);
    assert PointSet(s) <= {a, b};
    SubsetSize(PointSet(s), {a, b});
  }

  /** Cleaning a cleaned contour changes nothing. */
  lemma {:induction false} CleanContourIdempotent(s: Contour)
    ensures CleanContour(CleanContour(s)) == CleanContour(s)
  {
    var c := CleanContour(s);
    CleanContourSound(s);
    if c != [] {
      DedupFixpoint(c);
    }
  }

  /** `CleanPolygon`: builds the output contour point by point, skipping each
      point equal to the one before it, then drops a repeated closing point
      and empties a contour left with fewer than three distinct points. Holes are kept. */
  method CleanPolygon(inputPolygon: Polygon) returns (outputPolygon: Polygon)
    ensures outputPolygon.contour == CleanContour(inputPolygon.contour)
    ensures outputPolygon.holes == inputPolygon.holes
    ensures NoRepeatedNeighbours(outputPolygon.contour)
    ensures |outputPolygon.contour| == 0 || |outputPolygon.contour| >= 3
    ensures IsSubsequence(outputPolygon.contour, inputPolygon.contour)
    ensures outputPolygon.contour == [] <==> |PointSet(inputPolygon.contour)| < 3
  {
    var input := inputPolygon.contour;
    var points: Contour := [];
    var i := 0;
    while i < |input|
      invariant 0 <= i <= |input|
      invariant points == Dedup(input[..i])
    {
      assert input[..i + 1][..i] == input[..i];
      var p := input[i];
      if |points| == 0 || points[|points| - 1] != p {
        points := points + [p];
      }
      i := i + 1;
    }
    assert input[..i] == input;
    while |points| > 1 && points[|points| - 1] == points[0]
      invariant DropClosing(points) == DropClosing(Dedup(input))
      decreases |points|
    {
      points := points[..|points| - 1];
    }
    if |PointSet(points)| < 3 {
      points := [];
    }
    outputPolygon := Polygon(points, inputPolygon.holes);
    CleanContourSound(input);
  }

  // ---------------------------------------------------------------------------
  // Clipping
  // ---------------------------------------------------------------------------

  function Abs(n: int): nat { if n < 0 then -n else n }

  /** C's integer division, which truncates toward zero. */
  function CDiv(n: int, d: int): int
    requires d != 0
  {
    var q := Abs(n) / Abs(d);
    if (n < 0) == (d < 0) then q else -q
  }

  /** `a + (b - a) * num / den` in C integer arithmetic: the coordinate at
      fraction num/den of the way from a to b. */
  function Interpolate(a: int, b: int, num: int, den: int): int
    requires den != 0
  {
    a + CDiv((b - a) * num, den)
  }

  lemma MulBounded(k: nat, n: nat, d: nat)
    requires n <= d
    ensures k * n <= k * d
  {
  }

  lemma DivBounded(k: nat, n: nat, d: nat)
    requires 0 < d && n <= d
    ensures 0 <= (k * n) / d <= k
  {
    MulBounded(k, n, d);
    var q := (k * n) / d;
    assert d * q <= k * n;
    assert d * (k + 1) == d * k + d;
    if q > k {
      MulBounded(d, k + 1, q);
      assert false;
    }
  }

  lemma AbsMul(a: int, b: int)
    ensures Abs(a * b) == Abs(a) * Abs(b)
    ensures (a * b < 0) <==> (a < 0 && b > 0) || (a > 0 && b < 0)
  {
    if a < 0 && b < 0 { assert a * b == (-a) * (-b); }
    else if a < 0 && b >= 0 { assert a * b == -((-a) * b); }
    else if a >= 0 && b < 0 { assert a * b == -(a * (-b)); }
  }

  /** A fraction num/den in [0, 1] moves from a towards b and never past b. */
  lemma InterpolateBetween(a: int, b: int, num: int, den: int)
    requires (0 <= num <= den && den > 0) || (den <= num <= 0 && den < 0)
    ensures Min(a, b) <= Interpolate(a, b, num, den) <= Max(a, b)
  {
    var n := (b - a) * num;
    AbsMul(b - a, num);
    DivBounded(Abs(b - a), Abs(num), Abs(den));
  }

  /** One boundary line of the rectangle, with the side that is kept. */
  datatype Edge = Left(v: int) | Right(v: int) | Bottom(v: int) | Top(v: int)

  predicate Inside(e: Edge, p: Coord) {
    match e
    case Left(v) => p.x >= v
    case Right(v) => p.x <= v
    case Bottom(v) => p.y >= v
    case Top(v) => p.y <= v
  }

  /** The point where the segment prev-cur crosses the edge's boundary line. */
  function Intersect(e: Edge, prev: Coord, cur: Coord): Coord
    requires Inside(e, prev) != Inside(e, cur)
  {
    match e
    case Left(v) => Coord(v, Interpolate(prev.y, cur.y, v - prev.x, cur.x - prev.x))
    case Right(v) => Coord(v, Interpolate(prev.y, cur.y, v - prev.x, cur.x - prev.x))
    case Bottom(v) => Coord(Interpolate(prev.x, cur.x, v - prev.y, cur.y - prev.y), v)
    case Top(v) => Coord(Interpolate(prev.x, cur.x, v - prev.y, cur.y - prev.y), v)
  }

  /** `r` lies in the bounding box of `p` and `q`. */
  predicate Between(r: Coord, p: Coord, q: Coord) {
    Min(p.x, q.x) <= r.x <= Max(p.x, q.x) && Min(p.y, q.y) <= r.y <= Max(p.y, q.y)
  }

  /** The crossing point is on the kept side of the edge and between the segment's ends. */
  lemma IntersectPlacement(e: Edge, prev: Coord, cur: Coord)
    requires Inside(e, prev) != Inside(e, cur)
    ensures Inside(e, Intersect(e, prev, cur))
    ensures Between(Intersect(e, prev, cur), prev, cur)
  {
    match e
    case Left(v) => InterpolateBetween(prev.y, cur.y, v - prev.x, cur.x - prev.x);
    case Right(v) => InterpolateBetween(prev.y, cur.y, v - prev.x, cur.x - prev.x);
    case Bottom(v) => InterpolateBetween(prev.x, cur.x, v - prev.y, cur.y - prev.y);
    case Top(v) => InterpolateBetween(prev.x, cur.x, v - prev.y, cur.y - prev.y);
  }

  /** What one pass emits for the point `cur` preceded by `prev`. */
  function PassStep(e: Edge, prev: Coord, cur: Coord): seq<Coord> {
    if Inside(e, cur) then
      (if Inside(e, prev) then [cur] else [Intersect(e, prev, cur), cur])
    else if Inside(e, prev) then [Intersect(e, prev, cur)]
    else []
  }

  function PrevIndex(n: nat, i: nat): nat
    requires i < n
  {
    if i == 0 then n - 1 else i - 1
  }

  /** The output of one pass after visiting the first k points of `s`. */
  function ClipEdgePrefix(e: Edge, s: Contour, k: nat): Contour
    requires k <= |s|
  {
    if k == 0 then []
    else ClipEdgePrefix(e, s, k - 1) + PassStep(e, s[PrevIndex(|s|, k - 1)], s[k - 1])
  }

  /** One Sutherland-Hodgman pass of the closed contour `s` against edge `e`. */
  function ClipEdge(e: Edge, s: Contour): Contour {
    ClipEdgePrefix(e, s, |s|)
  }

  predicate AllInside(e: Edge, s: Contour) {
    forall i :: 0 <= i < |s| ==> Inside(e, s[i])
  }

  /** Every point a pass emits is on the kept side of its edge, and is on the
      kept side of any other edge all input points were on. */
  lemma {:induction false} ClipEdgePlacement(e: Edge, f: Edge, s: Contour, k: nat)
    requires k <= |s|
    ensures AllInside(e, ClipEdgePrefix(e, s, k))
    ensures AllInside(f, s) ==> AllInside(f, ClipEdgePrefix(e, s, k))
  {
    if k > 0 {
      ClipEdgePlacement(e, f, s, k - 1);
      var prev, cur := s[PrevIndex(|s|, k - 1)], s[k - 1];
      if Inside(e, prev) != Inside(e, cur) {
        IntersectPlacement(e, prev, cur);
      }
      var step := PassStep(e, prev, cur);
      assert AllInside(e, step);
      assert AllInside(f, s) ==> AllInside(f, step);
      var prefix := ClipEdgePrefix(e, s, k - 1);
      assert forall i :: 0 <= i < |prefix + step| ==>
        (prefix + step)[i] == if i < |prefix| then prefix[i] else step[i - |prefix|];
    }
  }

  /** A pass over a contour wholly on the kept side returns it unchanged. */
  lemma {:induction false} ClipEdgeIdentity(e: Edge, s: Contour, k: nat)
    requires k <= |s| && AllInside(e, s)
    ensures ClipEdgePrefix(e, s, k) == s[..k]
  {
    if k > 0 {
      ClipEdgeIdentity(e, s, k - 1);
      assert s[..k] == s[..k - 1] + [s[k - 1]];
    }
  }

  /** A pass over a contour wholly on the discarded side returns nothing. */
  lemma {:induction false} ClipEdgeOutside(e: Edge, s: Contour, k: nat)
    requires k <= |s| && forall i :: 0 <= i < |s| ==> !Inside(e, s[i])
    ensures ClipEdgePrefix(e, s, k) == []
  {
    if k > 0 {
      ClipEdgeOutside(e, s, k - 1);
    }
  }

  function LeftEdge(rect: Rect): Edge { Left(rect.l.x) }
  function RightEdge(rect: Rect): Edge { Right(rect.h.x) }
  function BottomEdge(rect: Rect): Edge { Bottom(rect.l.y) }
  function TopEdge(rect: Rect): Edge { Top(rect.h.y) }

  /** `l <= p <= h` on both axes. */
  predicate InRect(rect: Rect, p: Coord) {
    rect.l.x <= p.x <= rect.h.x && rect.l.y <= p.y <= rect.h.y
  }

  predicate AllInRect(rect: Rect, s: Contour) {
    forall i :: 0 <= i < |s| ==> InRect(rect, s[i])
  }

  /** Every vertex of every polygon's contour lies in the rectangle. */
  predicate PolygonsInRect(rect: Rect, ps: seq<Polygon>) {
    forall k :: 0 <= k < |ps| ==> AllInRect(rect, ps[k].contour)
  }

  /** The four passes, against x >= l.x, x <= h.x, y >= l.y and y <= h.y in turn. */
  function ClipContour(s: Contour, rect: Rect): Contour {
    ClipEdge(TopEdge(rect), ClipEdge(BottomEdge(rect), ClipEdge(RightEdge(rect), ClipEdge(LeftEdge(rect), s))))
  }

  /** The result of `RayClipPolygon`: the cleaned clipped contour as a polygon
      without holes, or nothing when cleanup leaves no contour. */
  function RayClip(inputPolygon: Polygon, rect: Rect): seq<Polygon> {
    var c := CleanContour(ClipContour(inputPolygon.contour, rect));
    if c == [] then [] else [Polygon(c, [])]
  }

  lemma {:induction false} ClipContourInRect(s: Contour, rect: Rect)
    ensures AllInRect(rect, ClipContour(s, rect))
  {
    var e1, e2, e3, e4 := LeftEdge(rect), RightEdge(rect), BottomEdge(rect), TopEdge(rect);
    var s1 := ClipEdge(e1, s);
    var s2 := ClipEdge(e2, s1);
    var s3 := ClipEdge(e3, s2);
    var s4 := ClipEdge(e4, s3);
    ClipEdgePlacement(e1, e1, s, |s|);
    ClipEdgePlacement(e2, e1, s1, |s1|);
    ClipEdgePlacement(e3, e1, s2, |s2|);
    ClipEdgePlacement(e3, e2, s2, |s2|);
    ClipEdgePlacement(e4, e1, s3, |s3|);
    ClipEdgePlacement(e4, e2, s3, |s3|);
    ClipEdgePlacement(e4, e3, s3, |s3|);
  }

  /** Cleanup keeps only points of its input, so it keeps them in the rectangle. */
  lemma {:induction false} CleanContourInRect(s: Contour, rect: Rect)
    requires AllInRect(rect, s)
    ensures AllInRect(rect, CleanContour(s))
  {
    CleanContourSound(s);
    var c := CleanContour(s);
    forall i | 0 <= i < |c| ensures InRect(rect, c[i]) {
      assert c[i] in c;
      var j :| 0 <= j < |s| && s[j] == c[i];
    }
  }

  /** Every vertex of every polygon `RayClipPolygon` produces lies in the rectangle. */
  lemma {:induction false} RayClipInRect(inputPolygon: Polygon, rect: Rect)
    ensures PolygonsInRect(rect, RayClip(inputPolygon, rect))
  {
    var s := ClipContour(inputPolygon.contour, rect);
    ClipContourInRect(inputPolygon.contour, rect);
    CleanContourInRect(s, rect);
  }

  /** A polygon whose vertices all lie in the rectangle comes back as itself, up to cleanup. */
  lemma {:induction false} RayClipInsideIsCleanup(inputPolygon: Polygon, rect: Rect)
    requires AllInRect(rect, inputPolygon.contour)
    ensures RayClip(inputPolygon, rect) ==
      if CleanContour(inputPolygon.contour) == [] then [] else [Polygon(CleanContour(inputPolygon.contour), [])]
  {
    var s := inputPolygon.contour;
    ClipEdgeIdentity(LeftEdge(rect), s, |s|);
    ClipEdgeIdentity(RightEdge(rect), s, |s|);
    ClipEdgeIdentity(BottomEdge(rect), s, |s|);
    ClipEdgeIdentity(TopEdge(rect), s, |s|);
    assert s[..|s|] == s;
  }

  /** A polygon with every vertex beyond one side of the rectangle clips to nothing. */
  lemma {:induction false} RayClipOutsideIsEmpty(inputPolygon: Polygon, rect: Rect)
    requires forall i :: 0 <= i < |inputPolygon.contour| ==> inputPolygon.contour[i].x < rect.l.x
    ensures RayClip(inputPolygon, rect) == []
  {
    var s := inputPolygon.contour;
    ClipEdgeOutside(LeftEdge(rect), s, |s|);
    ClipEdgeOutside(RightEdge(rect), [], 0);
    ClipEdgeOutside(BottomEdge(rect), [], 0);
    ClipEdgeOutside(TopEdge(rect), [], 0);
  }

  /** Interpolating between two equal values gives that value. */
  lemma InterpolateFlat(a: int, num: int, den: int)
    requires den != 0
    ensures Interpolate(a, a, num, den) == a
  {
    assert (a - a) * num == 0;
  }

  /** One pass over a four-point contour, written out edge by edge. */
  lemma ClipEdgeFour(e: Edge, s: Contour)
    requires |s| == 4
    ensures ClipEdge(e, s) ==
      PassStep(e, s[3], s[0]) + PassStep(e, s[0], s[1]) + PassStep(e, s[1], s[2]) + PassStep(e, s[2], s[3])
  {
    assert ClipEdgePrefix(e, s, 1) == PassStep(e, s[3], s[0]);
    assert ClipEdgePrefix(e, s, 2) == ClipEdgePrefix(e, s, 1) + PassStep(e, s[0], s[1]);
    assert ClipEdgePrefix(e, s, 3) == ClipEdgePrefix(e, s, 2) + PassStep(e, s[1], s[2]);
  }

  /** The contour of the axis-aligned box (x0, y0)-(x1, y1), counter-clockwise
      from its bottom-left corner. */
  function BoxRing(x0: int, y0: int, x1: int, y1: int): Contour {
    [Coord(x0, y0), Coord(x1, y0), Coord(x1, y1), Coord(x0, y1)]
  }

  lemma BoxLeftPass(x0: int, y0: int, x1: int, y1: int, v: int)
    requires x0 < v <= x1
    ensures ClipEdge(Left(v), BoxRing(x0, y0, x1, y1)) == BoxRing(v, y0, x1, y1)
  {
    var s := BoxRing(x0, y0, x1, y1);
    ClipEdgeFour(Left(v), s);
    InterpolateFlat(y0, v - x0, x1 - x0);
    InterpolateFlat(y1, v - x1, x0 - x1);
  }

  lemma BoxRightPass(x0: int, y0: int, x1: int, y1: int, v: int)
    requires x0 <= v < x1
    ensures ClipEdge(Right(v), BoxRing(x0, y0, x1, y1)) == BoxRing(x0, y0, v, y1)
  {
    var s := BoxRing(x0, y0, x1, y1);
    ClipEdgeFour(Right(v), s);
    InterpolateFlat(y0, v - x0, x1 - x0);
    InterpolateFlat(y1, v - x1, x0 - x1);
  }

  lemma BoxBottomPass(x0: int, y0: int, x1: int, y1: int, v: int)
    requires y0 < v <= y1
    ensures ClipEdge(Bottom(v), BoxRing(x0, y0, x1, y1)) == BoxRing(x0, v, x1, y1)
  {
    var s := BoxRing(x0, y0, x1, y1);
    ClipEdgeFour(Bottom(v), s);
    InterpolateFlat(x0, v - y1, y0 - y1);
    InterpolateFlat(x1, v - y0, y1 - y0);
  }

  /** The last pass leaves the ring starting at the top-left corner. */
  lemma BoxTopPass(x0: int, y0: int, x1: int, y1: int, v: int)
    requires y0 <= v < y1
    ensures ClipEdge(Top(v), BoxRing(x0, y0, x1, y1)) ==
      [Coord(x0, v), Coord(x0, y0), Coord(x1, y0), Coord(x1, v)]
  {
    var s := BoxRing(x0, y0, x1, y1);
    ClipEdgeFour(Top(v), s);
    InterpolateFlat(x0, v - y1, y0 - y1);
    InterpolateFlat(x1, v - y0, y1 - y0);
  }

  /** Four distinct corners are already clean. */
  lemma CleanCorners(a: Coord, b: Coord, c: Coord, d: Coord)
    requires a != b && b != c && c != d && d != a && a != c
    ensures CleanContour([a, b, c, d]) == [a, b, c, d]
  {
    var s := [a, b, c, d];
    assert s[0] == a && s[1] == b && s[2] == c;
    assert a in PointSet(s) && b in PointSet(s) && c in PointSet(s);
    assert |{a, b, c}| == 3;
    SubsetSize({a, b, c}, PointSet(s));
    assert s[..1][..0] == [];
    assert Dedup(s[..1]) == [a];
    assert s[..2][..1] == s[..1];
    assert Dedup(s[..2]) == [a, b];
    assert s[..3][..2] == s[..2];
    assert Dedup(s[..3]) == [a, b, c];
    assert s[..3] == s[..|s| - 1];
    assert Dedup(s) == s;
  }

  /** A box reaching past every side of a rectangle with positive width and
      height clips to exactly that rectangle, as a ring starting at its
      top-left corner. */
  lemma BoxClipsToRect(x0: int, y0: int, x1: int, y1: int, rect: Rect)
    requires x0 < rect.l.x < rect.h.x < x1 && y0 < rect.l.y < rect.h.y < y1
    ensures RayClip(Polygon(BoxRing(x0, y0, x1, y1), []), rect) ==
      [Polygon([Coord(rect.l.x, rect.h.y), rect.l, Coord(rect.h.x, rect.l.y), rect.h], [])]
  {
    BoxLeftPass(x0, y0, x1, y1, rect.l.x);
    BoxRightPass(rect.l.x, y0, x1, y1, rect.h.x);
    BoxBottomPass(rect.l.x, y0, rect.h.x, y1, rect.l.y);
    BoxTopPass(rect.l.x, rect.l.y, rect.h.x, y1, rect.h.y);
    CleanCorners(Coord(rect.l.x, rect.h.y), rect.l, Coord(rect.h.x, rect.l.y), rect.h);
  }

  /** The square (-50, -50)-(150, 150) clips to exactly the rectangle (0, 0)-(100, 100). */
  lemma SquareClipsToRect()
    ensures RayClip(Polygon([Coord(-50, -50), Coord(150, -50), Coord(150, 150), Coord(-50, 150)], []),
                    Rect(Coord(0, 0), Coord(100, 100)))
         == [Polygon([Coord(0, 100), Coord(0, 0), Coord(100, 0), Coord(100, 100)], [])]
  {
    BoxClipsToRect(-50, -50, 150, 150, Rect(Coord(0, 0), Coord(100, 100)));
  }

  /** One pass, emitting points one at a time as it walks the contour. */
  method ClipAgainstEdge(s: Contour, e: Edge) returns (output: Contour)
    ensures output == ClipEdge(e, s)
    ensures AllInside(e, output)
    ensures AllInside(e, s) ==> output == s
  {
    output := [];
    var i := 0;
    while i < |s|
      invariant 0 <= i <= |s|
      invariant output == ClipEdgePrefix(e, s, i)
    {
      var prev := if i == 0 then s[|s| - 1] else s[i - 1];
      var cur := s[i];
      assert prev == s[PrevIndex(|s|, i)];
      ghost var before := output;
      if Inside(e, cur) {
        if !Inside(e, prev) {
          output := output + [Intersect(e, prev, cur)];
        }
        output := output + [cur];
        assert output == before + PassStep(e, prev, cur);
      } else if Inside(e, prev) {
        output := output + [Intersect(e, prev, cur)];
        assert output == before + PassStep(e, prev, cur);
      }
      i := i + 1;
    }
    ClipEdgeSound(e, s);
  }

  /** A pass keeps only points on the kept side, and leaves a contour already
      on that side as it was. */
  lemma ClipEdgeSound(e: Edge, s: Contour)
    ensures AllInside(e, ClipEdge(e, s))
    ensures AllInside(e, s) ==> ClipEdge(e, s) == s
  {
    ClipEdgePlacement(e, e, s, |s|);
    if AllInside(e, s) {
      ClipEdgeIdentity(e, s, |s|);
      assert s[..|s|] == s;
    }
  }

  /** The four passes of `RayClipPolygon`, one per side of the rectangle. */
  method ClipFourPasses(s: Contour, rect: Rect) returns (work: Contour)
    ensures work == ClipContour(s, rect)
  {
    work := ClipAgainstEdge(s, LeftEdge(rect));
    work := ClipAgainstEdge(work, RightEdge(rect));
    work := ClipAgainstEdge(work, BottomEdge(rect));
    work := ClipAgainstEdge(work, TopEdge(rect));
  }

  /** `RayClipPolygon`: clips the contour against the rectangle's four
      half-planes in turn, cleans the result and emits it when anything is left. */
  method RayClipPolygon(inputPolygon: Polygon, rect: Rect) returns (outputPolygons: seq<Polygon>)
    ensures outputPolygons == RayClip(inputPolygon, rect)
    ensures PolygonsInRect(rect, outputPolygons)
    ensures forall k :: 0 <= k < |outputPolygons| ==>
      outputPolygons[k].holes == [] && |outputPolygons[k].contour| >= 3 && NoRepeatedNeighbours(outputPolygons[k].contour)
    ensures AllInRect(rect, inputPolygon.contour) ==>
      outputPolygons == if CleanContour(inputPolygon.contour) == [] then [] else [Polygon(CleanContour(inputPolygon.contour), [])]
  {
    var work := ClipFourPasses(inputPolygon.contour, rect);
    var cleaned := CleanPolygon(Polygon(work, []));
    if |cleaned.contour| == 0 {
      outputPolygons := [];
    } else {
      outputPolygons := [cleaned];
    }
    RayClipShape(inputPolygon, rect);
  }

  /** The facts `RayClipPolygon` states of its output, gathered about `RayClip`. */
  lemma RayClipShape(inputPolygon: Polygon, rect: Rect)
    ensures var out := RayClip(inputPolygon, rect);
      PolygonsInRect(rect, out) &&
      (forall k :: 0 <= k < |out| ==>
        out[k].holes == [] && |out[k].contour| >= 3 && NoRepeatedNeighbours(out[k].contour)) &&
      (AllInRect(rect, inputPolygon.contour) ==>
        out == if CleanContour(inputPolygon.contour) == [] then [] else [Polygon(CleanContour(inputPolygon.contour), [])])
  {
    RayClipInRect(inputPolygon, rect);
    CleanContourSound(ClipContour(inputPolygon.contour, rect));
    if AllInRect(rect, inputPolygon.contour) {
      RayClipInsideIsCleanup(inputPolygon, rect);
    }
  }
}
