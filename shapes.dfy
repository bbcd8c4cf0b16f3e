/**
 * Pixel geometry of the two shape kinds (circles and squares): membership,
 * bounding box, area, and the clipped row-major enumeration of the integer
 * pixels a shape covers on a w-by-h grid.
 */
module Shapes {
  import opened RealArith

  datatype Kind = Circle | Square

  /** An RGB colour; channels are the image's floating values, kept as reals. */
  datatype Color = Color(red: real, green: real, blue: real)

  /** An integer grid position: column x, row y. */
  datatype Pixel = Pixel(x: int, y: int)

  /** The geometry a shape has at one moment: kind, integer centre, size (radius or half-side). */
  datatype Geometry = Geometry(kind: Kind, x: int, y: int, r: real)

  /** An axis-aligned box given by its two corners. */
  datatype Box = Box(minX: real, minY: real, maxX: real, maxY: real)

  /** The half-open integer ranges [minX, maxX) x [minY, maxY) that InsideRegion scans. */
  datatype Clip = Clip(minX: int, minY: int, maxX: int, maxY: int)

  function Min(a: int, b: int): int { if a <= b then a else b }
  function Max(a: int, b: int): int { if a <= b then b else a }
  function Abs(v: real): real { if v < 0.0 then -v else v }

  /** math.ceil, written through Floor. */
  function Ceil(v: real): (c: int)
    ensures c as real - 1.0 < v <= c as real
  {
    -((-v).Floor)
  }

  /** Membership test of a point in the shape, boundary included. */
  predicate IsInside(g: Geometry, px: real, py: real)
  {
    var cx, cy := g.x as real, g.y as real;
    match g.kind
    case Circle =>
      var dx, dy := cx - px, cy - py;
      dx * dx + dy * dy <= g.r * g.r
    case Square =>
      px >= cx - g.r && px <= cx + g.r && py >= cy - g.r && py <= cy + g.r
  }

  /** Both kinds share the same bounding box. */
  function BoundingBox(g: Geometry): Box
  {
    Box(g.x as real - g.r, g.y as real - g.r, g.x as real + g.r, g.y as real + g.r)
  }

  predicate InBox(b: Box, px: real, py: real)
  {
    b.minX <= px <= b.maxX && b.minY <= py <= b.maxY
  }

  /** Area of the shape; pi stands for math.pi, whose floating value is not modelled. */
  function GetArea(g: Geometry, pi: real): (a: real)
    requires pi > 0.0
    ensures a >= 0.0
  {
    ScaledSquare(if g.kind == Circle then pi else 4.0, g.r)
  }

  /** The bounding box clipped to the grid: floor of the low corner, ceiling of the high corner. */
  function ClipBox(b: Box, w: int, h: int): Clip
  {
    Clip(Max(0, b.minX.Floor), Max(0, b.minY.Floor), Min(w, Ceil(b.maxX)), Min(h, Ceil(b.maxY)))
  }

  function RegionClip(g: Geometry, w: int, h: int): Clip
  {
    ClipBox(BoundingBox(g), w, h)
  }

  /** The pixels (px, y) with x <= px < maxX that are inside the shape, left to right. */
  function RowPixels(g: Geometry, y: int, x: int, maxX: int): seq<Pixel>
    decreases maxX - x
  {
    if x >= maxX then []
    else (if IsInside(g, x as real, y as real) then [Pixel(x, y)] else []) + RowPixels(g, y, x + 1, maxX)
  }

  /** The rows y <= py < maxY of the clipped box, top to bottom. */
  function RowsPixels(g: Geometry, y: int, maxY: int, minX: int, maxX: int): seq<Pixel>
    decreases maxY - y
  {
    if y >= maxY then []
    else RowPixels(g, y, minX, maxX) + RowsPixels(g, y + 1, maxY, minX, maxX)
  }

  /** What Shape.InsideRegion(w, h) yields, in yield order. */
  function Region(g: Geometry, w: int, h: int): seq<Pixel>
  {
    var c := RegionClip(g, w, h);
    RowsPixels(g, c.minY, c.maxY, c.minX, c.maxX)
  }

  /** Row-major order: an earlier row, or the same row and an earlier column. */
  predicate Before(a: Pixel, b: Pixel)
  {
    a.y < b.y || (a.y == b.y && a.x < b.x)
  }

  predicate RowMajor(s: seq<Pixel>)
  {
    forall i, j :: 0 <= i < j < |s| ==> Before(s[i], s[j])
  }

  /** A shape object whose position, size and colour the packer updates in place. */
  class Shape {
    const kind: Kind
    var x: int
    var y: int
    var r: real
    var color: Color

    constructor (kind: Kind, x: int, y: int, r: real, color: Color)
      ensures this.kind == kind && this.x == x && this.y == y && this.r == r && this.color == color
    {
      this.kind := kind;
      this.x := x;
      this.y := y;
      this.r := r;
      this.color := color;
    }

    function Geom(): Geometry
      reads this
    {
      Geometry(kind, x, y, r)
    }

    /** Enumerates the covered pixels of the clipped bounding box, row by row. */
    method InsideRegion(w: int, h: int) returns (pts: seq<Pixel>)
      ensures pts == Region(Geom(), w, h)
    {
      var g := Geom();
      var c := RegionClip(g, w, h);
      pts := [];
      var py := c.minY;
      while py < c.maxY
        invariant c.minY <= py
        invariant RowsPixels(g, c.minY, c.maxY, c.minX, c.maxX) == pts + RowsPixels(g, py, c.maxY, c.minX, c.maxX)
      {
        var row := InsideRow(g, py, c.minX, c.maxX);
        assert (pts + row) + RowsPixels(g, py + 1, c.maxY, c.minX, c.maxX)
            == pts + (row + RowsPixels(g, py + 1, c.maxY, c.minX, c.maxX));
        pts := pts + row;
        py := py + 1;
      }
    }
  }

  /** The inner loop of Shape.InsideRegion: the covered pixels of row py, left to right. */
  method InsideRow(g: Geometry, py: int, minX: int, maxX: int) returns (row: seq<Pixel>)
    ensures row == RowPixels(g, py, minX, maxX)
  {
    row := [];
    var px := minX;
    while px < maxX
      invariant minX <= px
      invariant RowPixels(g, py, minX, maxX) == row + RowPixels(g, py, px, maxX)
    {
      if IsInside(g, px as real, py as real) {
        row := row + [Pixel(px, py)];
      }
      px := px + 1;
    }
  }

  // ---------------------------------------------------------------------------
  // Membership and bounding box

  /** The unit circle at the origin, as the test suite exercises it. */
  lemma UnitCircleTestPoints()
    ensures IsInside(Geometry(Circle, 0, 0, 1.0), 0.0, 0.0)
    ensures IsInside(Geometry(Circle, 0, 0, 1.0), 1.0, 0.0)
    ensures IsInside(Geometry(Circle, 0, 0, 1.0), 0.0, 1.0)
    ensures !IsInside(Geometry(Circle, 0, 0, 1.0), 0.0, 1.1)
  {
  }

  /** A square's membership is the Chebyshev ball of radius r. */
  lemma SquareIsChebyshevBall(g: Geometry, px: real, py: real)
    requires g.kind == Square
    ensures IsInside(g, px, py) <==> Abs(g.x as real - px) <= g.r && Abs(g.y as real - py) <= g.r
  {
  }

  /** For a non-negative radius, a circle lies within the square of the same centre and size. */
  lemma CircleWithinSquare(g: Geometry, px: real, py: real)
    requires g.kind == Circle && g.r >= 0.0
    requires IsInside(g, px, py)
    ensures IsInside(g.(kind := Square), px, py)
  {
    var dx, dy := g.x as real - px, g.y as real - py;
    SquareNonNegative(dx);
    SquareNonNegative(dy);
    SquareBound(dx, dy * dy, g.r);
    SquareBound(dy, dx * dx, g.r);
  }

  /** Every point of either kind lies in the closed bounding box (non-negative size). */
  lemma InsideIsInBoundingBox(g: Geometry, px: real, py: real)
    requires g.r >= 0.0
    requires IsInside(g, px, py)
    ensures InBox(BoundingBox(g), px, py)
  {
    if g.kind == Circle {
      CircleWithinSquare(g, px, py);
    }
  }

  // ---------------------------------------------------------------------------
  // Area

  /** Area depends only on kind and size, not on the position; a unit circle has area pi. */
  lemma AreaIndependentOfPosition(g: Geometry, x: int, y: int, pi: real)
    requires pi > 0.0
    ensures GetArea(g.(x := x, y := y), pi) == GetArea(g, pi)
    ensures g.kind == Circle && g.r == 1.0 ==> GetArea(g, pi) == pi
  {
  }

  /** A square's area is its bounding box's area; a circle's is pi/4 of it. */
  lemma AreaAgainstBoundingBox(g: Geometry, pi: real)
    requires pi > 0.0
    ensures g.kind == Square ==>
      GetArea(g, pi) == (BoundingBox(g).maxX - BoundingBox(g).minX) * (BoundingBox(g).maxY - BoundingBox(g).minY)
    ensures g.kind == Circle ==>
      GetArea(g, pi) == pi / 4.0 * ((BoundingBox(g).maxX - BoundingBox(g).minX) * (BoundingBox(g).maxY - BoundingBox(g).minY))
  {
    var b := BoundingBox(g);
    assert b.maxX - b.minX == 2.0 * g.r;
    assert b.maxY - b.minY == 2.0 * g.r;
    DoubleSquared(g.r);
    QuarterOfFourfold(pi, g.r * g.r);
  }

  // ---------------------------------------------------------------------------
  // Clipping and the enumerated region

  lemma FloorMonotone(a: real, b: real)
    requires a <= b
    ensures a.Floor <= b.Floor
  {
  }

  /** For an integer px, the clipped x-range holds exactly the grid columns with lo - 1 < px < hi. */
  lemma ClipRange(b: Box, w: int, h: int, px: int, py: int)
    ensures ClipBox(b, w, h).minX <= px < ClipBox(b, w, h).maxX <==>
      0 <= px < w && b.minX < px as real + 1.0 && (px as real) < b.maxX
    ensures ClipBox(b, w, h).minY <= py < ClipBox(b, w, h).maxY <==>
      0 <= py < h && b.minY < py as real + 1.0 && (py as real) < b.maxY
  {
  }

  /** The clipped ranges lie within the grid. */
  lemma ClipWithinGrid(g: Geometry, w: int, h: int)
    ensures 0 <= RegionClip(g, w, h).minX && RegionClip(g, w, h).maxX <= w
    ensures 0 <= RegionClip(g, w, h).minY && RegionClip(g, w, h).maxY <= h
  {
  }

  lemma {:induction false} RowPixelsMembership(g: Geometry, y: int, x: int, maxX: int, p: Pixel)
    ensures p in RowPixels(g, y, x, maxX) <==> p.y == y && x <= p.x < maxX && IsInside(g, p.x as real, p.y as real)
    decreases maxX - x
  {
    if x < maxX {
      RowPixelsMembership(g, y, x + 1, maxX, p);
    }
  }

  lemma {:induction false} RowsPixelsMembership(g: Geometry, y: int, maxY: int, minX: int, maxX: int, p: Pixel)
    ensures p in RowsPixels(g, y, maxY, minX, maxX) <==>
      y <= p.y < maxY && minX <= p.x < maxX && IsInside(g, p.x as real, p.y as real)
    decreases maxY - y
  {
    if y < maxY {
      RowPixelsMembership(g, y, minX, maxX, p);
      RowsPixelsMembership(g, y + 1, maxY, minX, maxX, p);
    }
  }

  /** InsideRegion yields exactly the covered pixels of the clipped bounding box. */
  lemma RegionMembership(g: Geometry, w: int, h: int, p: Pixel)
    ensures p in Region(g, w, h) <==>
      IsInside(g, p.x as real, p.y as real) &&
      RegionClip(g, w, h).minX <= p.x < RegionClip(g, w, h).maxX &&
      RegionClip(g, w, h).minY <= p.y < RegionClip(g, w, h).maxY
  {
    var c := RegionClip(g, w, h);
    RowsPixelsMembership(g, c.minY, c.maxY, c.minX, c.maxX, p);
  }

  /** Every yielded pixel is a grid pixel. */
  lemma RegionInGrid(g: Geometry, w: int, h: int)
    ensures forall p :: p in Region(g, w, h) ==> 0 <= p.x < w && 0 <= p.y < h
  {
    forall p | p in Region(g, w, h)
      ensures 0 <= p.x < w && 0 <= p.y < h
    {
      RegionMembership(g, w, h, p);
    }
  }

  /** The upper bound is exclusive: the unit circle at the origin does not yield (1, 0). */
  lemma UnitCircleRegionExcludesRightmost(w: int, h: int)
    requires w > 1 && h > 1
    ensures IsInside(Geometry(Circle, 0, 0, 1.0), 1.0, 0.0)
    ensures Pixel(1, 0) !in Region(Geometry(Circle, 0, 0, 1.0), w, h)
    ensures Pixel(0, 0) in Region(Geometry(Circle, 0, 0, 1.0), w, h)
  {
    var c := Geometry(Circle, 0, 0, 1.0);
    RegionMembership(c, w, h, Pixel(1, 0));
    RegionMembership(c, w, h, Pixel(0, 0));
  }

  /** With r > 0 and the centre on the grid, the centre is yielded, so the region is not empty. */
  lemma RegionContainsCentre(g: Geometry, w: int, h: int)
    requires g.r > 0.0
    requires 0 <= g.x < w && 0 <= g.y < h
    ensures Pixel(g.x, g.y) in Region(g, w, h)
    ensures |Region(g, w, h)| > 0
  {
    ClipRange(BoundingBox(g), w, h, g.x, g.y);
    assert IsInside(g, g.x as real, g.y as real);
    RegionMembership(g, w, h, Pixel(g.x, g.y));
  }

  /**
   * A size of zero or less leaves the clipped box empty, so nothing is yielded:
   * a search that counted this footprint would divide by zero.
   */
  lemma NonPositiveSizeRegionEmpty(g: Geometry, w: int, h: int)
    requires g.r <= 0.0
    ensures Region(g, w, h) == []
  {
    var region := Region(g, w, h);
    if region != [] {
      var p := region[0];
      RegionMembership(g, w, h, p);
      FloorMonotone(g.x as real, g.x as real - g.r);
      assert false;
    }
  }

  /** Inside is monotone in a non-negative size. */
  lemma InsideMonotone(g: Geometry, r': real, px: real, py: real)
    requires 0.0 <= g.r <= r'
    requires IsInside(g, px, py)
    ensures IsInside(g.(r := r'), px, py)
  {
    if g.kind == Circle {
      SquareMonotone(g.r, r');
    }
  }

  /** Growing the size can only add pixels to the region. */
  lemma RegionMonotone(g: Geometry, r': real, w: int, h: int, p: Pixel)
    requires 0.0 <= g.r <= r'
    requires p in Region(g, w, h)
    ensures p in Region(g.(r := r'), w, h)
  {
    var g' := g.(r := r');
    RegionMembership(g, w, h, p);
    RegionMembership(g', w, h, p);
    InsideMonotone(g, r', p.x as real, p.y as real);
    FloorMonotone(g'.x as real - r', g.x as real - g.r);
    FloorMonotone(g'.y as real - r', g.y as real - g.r);
  }

  predicate RowOrdered(s: seq<Pixel>, y: int, x: int, maxX: int)
  {
    (forall i :: 0 <= i < |s| ==> s[i].y == y && x <= s[i].x < maxX) &&
    (forall i, j :: 0 <= i < j < |s| ==> s[i].x < s[j].x)
  }

  lemma {:induction false} RowPixelsOrdered(g: Geometry, y: int, x: int, maxX: int)
    ensures RowOrdered(RowPixels(g, y, x, maxX), y, x, maxX)
    decreases maxX - x
  {
    if x < maxX {
      RowPixelsOrdered(g, y, x + 1, maxX);
      var rest := RowPixels(g, y, x + 1, maxX);
      var head := if IsInside(g, x as real, y as real) then [Pixel(x, y)] else [];
      assert RowPixels(g, y, x, maxX) == head + rest;
      HeadThenRow(head, rest, y, x, maxX);
    }
  }

  lemma HeadThenRow(head: seq<Pixel>, rest: seq<Pixel>, y: int, x: int, maxX: int)
    requires head == [] || head == [Pixel(x, y)]
    requires x < maxX
    requires RowOrdered(rest, y, x + 1, maxX)
    ensures RowOrdered(head + rest, y, x, maxX)
  {
    var s := head + rest;
    assert forall k :: |head| <= k < |s| ==> s[k] == rest[k - |head|];
  }

  predicate RowsOrdered(s: seq<Pixel>, y: int, maxY: int)
  {
    (forall i :: 0 <= i < |s| ==> y <= s[i].y < maxY) && RowMajor(s)
  }

  lemma {:induction false} RowsPixelsOrdered(g: Geometry, y: int, maxY: int, minX: int, maxX: int)
    ensures RowsOrdered(RowsPixels(g, y, maxY, minX, maxX), y, maxY)
    decreases maxY - y
  {
    if y < maxY {
      var row := RowPixels(g, y, minX, maxX);
      var rest := RowsPixels(g, y + 1, maxY, minX, maxX);
      RowPixelsOrdered(g, y, minX, maxX);
      RowsPixelsOrdered(g, y + 1, maxY, minX, maxX);
      var s := row + rest;
      assert s == RowsPixels(g, y, maxY, minX, maxX);
      assert forall k :: 0 <= k < |row| ==> s[k] == row[k];
      assert forall k :: |row| <= k < |s| ==> s[k] == rest[k - |row|];
    }
  }

  /** InsideRegion yields in strict row-major order, hence without duplicates. */
  lemma RegionRowMajor(g: Geometry, w: int, h: int)
    ensures RowMajor(Region(g, w, h))
    ensures forall i, j :: 0 <= i < j < |Region(g, w, h)| ==> Region(g, w, h)[i] != Region(g, w, h)[j]
  {
    var c := RegionClip(g, w, h);
    RowsPixelsOrdered(g, c.minY, c.maxY, c.minX, c.maxX);
  }
}
