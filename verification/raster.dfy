/**
 * Decoded radar rasters. A frame is a grid of RGBA samples, row `y` then column `x`, with `x`
 * growing rightward and `y` growing downward; `rows[y][x]` is the sample the source reads at byte
 * offset `(y * width + x) * 4` of its row-major RGBA buffer.
 */
module Raster {

  /** One channel of a `Uint8ClampedArray`. */
  type Byte = b: int | 0 <= b < 256

  datatype Rgba = Rgba(r: Byte, g: Byte, b: Byte, a: Byte)

  /** The sample a freshly created canvas image holds everywhere. */
  const Transparent: Rgba := Rgba(0, 0, 0, 0)

  /** A pixel position; it may lie outside any particular image. */
  datatype Point = Point(x: int, y: int)

  /** The four 4-connected neighbours, in the order the flood fill pushes them. */
  function Neighbours(p: Point): (ns: seq<Point>)
    ensures |ns| == 4
  {
    [Point(p.x + 1, p.y), Point(p.x - 1, p.y), Point(p.x, p.y + 1), Point(p.x, p.y - 1)]
  }

  predicate Adjacent(p: Point, q: Point)
  {
    q in Neighbours(p)
  }

  lemma AdjacentSymmetric(p: Point, q: Point)
    ensures Adjacent(p, q) <==> Adjacent(q, p)
  {
  }

  /** Raster scan order: row by row, left to right within a row. */
  predicate RasterBefore(p: Point, q: Point)
  {
    p.y < q.y || (p.y == q.y && p.x < q.x)
  }

  /** The sums of the coordinates of a list of positions (the centroid numerators). */
  function SumX(ps: seq<Point>): int
  {
    if |ps| == 0 then 0 else SumX(ps[..|ps| - 1]) + ps[|ps| - 1].x
  }

  function SumY(ps: seq<Point>): int
  {
    if |ps| == 0 then 0 else SumY(ps[..|ps| - 1]) + ps[|ps| - 1].y
  }

  datatype Image = Image(width: nat, height: nat, rows: seq<seq<Rgba>>) {

    predicate Valid()
    {
      |rows| == height && forall y :: 0 <= y < |rows| ==> |rows[y]| == width
    }

    predicate Contains(p: Point)
    {
      0 <= p.x < width && 0 <= p.y < height
    }

    function At(p: Point): Rgba
      requires Valid() && Contains(p)
    {
      rows[p.y][p.x]
    }

    /** Every in-bounds position. */
    ghost function Points(): (ps: set<Point>)
      ensures forall p :: p in ps <==> Contains(p)
    {
      var ps := set x, y | 0 <= x < width && 0 <= y < height :: Point(x, y);
      assert forall p: Point :: Contains(p) ==> p == Point(p.x, p.y) && p in ps;
      ps
    }
  }

  /** A fully transparent image of the given size (`createImageData`). */
  function Blank(width: nat, height: nat): (img: Image)
    ensures img.Valid() && img.width == width && img.height == height
    ensures forall p :: img.Contains(p) ==> img.At(p) == Transparent
  {
    Image(width, height, seq(height, _ => seq(width, _ => Transparent)))
  }

  /** The in-bounds positions of one row. */
  ghost function RowPoints(width: nat, y: int): set<Point>
  {
    set x | 0 <= x < width :: Point(x, y)
  }

  /** The first `rows` rows of a `width`-wide grid. */
  ghost function GridPoints(width: nat, rows: nat): set<Point>
  {
    if rows == 0 then {} else GridPoints(width, rows - 1) + RowPoints(width, rows - 1)
  }

  lemma {:induction false} RowPointsCard(width: nat, y: int)
    ensures |RowPoints(width, y)| == width
  {
    if width > 0 {
      RowPointsCard(width - 1, y);
      assert RowPoints(width, y) == RowPoints(width - 1, y) + {Point(width - 1, y)};
    } else {
      assert RowPoints(width, y) == {};
    }
  }

  lemma {:induction false} GridPointsMember(width: nat, rows: nat, p: Point)
    ensures p in GridPoints(width, rows) <==> 0 <= p.x < width && 0 <= p.y < rows
  {
    if rows > 0 {
      GridPointsMember(width, rows - 1, p);
      if 0 <= p.x < width && p.y == rows - 1 {
        assert p == Point(p.x, rows - 1);
      }
    }
  }

  lemma {:induction false} GridPointsCard(width: nat, rows: nat)
    ensures |GridPoints(width, rows)| == width * rows
  {
    if rows > 0 {
      var before, row := GridPoints(width, rows - 1), RowPoints(width, rows - 1);
      GridPointsCard(width, rows - 1);
      RowPointsCard(width, rows - 1);
      forall p | p in before
        ensures p !in row
      {
        GridPointsMember(width, rows - 1, p);
      }
      assert |before + row| == |before| + |row|;
      assert width * (rows - 1) + width == width * rows;
    }
  }

  /** An image has exactly `width * height` positions. */
  lemma PointsCard(img: Image)
    ensures |img.Points()| == img.width * img.height
  {
    GridPointsCard(img.width, img.height);
    forall p
      ensures p in img.Points() <==> p in GridPoints(img.width, img.height)
    {
      GridPointsMember(img.width, img.height, p);
    }
    assert img.Points() == GridPoints(img.width, img.height);
  }
}
