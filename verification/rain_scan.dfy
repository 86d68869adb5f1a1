/**
 * The point forecaster's own pixel classifier, three-level intensity and circular rain scan
 * (lib/weather/rain-predictor.ts). Frames are 512 x 512 radar images; the scan visits the square
 * around a centre row by row and counts the rain pixels within the circle of the given radius
 * that lie on the image.
 */
module RainScan {
  import opened JsMath
  import opened Raster

  /** Radar images are this many pixels on a side. */
  const RadarSize: nat := 512

  datatype Intensity = Light | Moderate | Heavy

  /** The forecaster's classifier: stricter about darkness, looser about alpha than the tracker's. */
  predicate IsRainPixel(r: int, g: int, b: int, a: int)
  {
    if a < 50 then false
    else if r < 30 && g < 30 && b < 30 then false
    // light rain: cyan / light blue
    else if b > 150 && g > 150 && r < 150 then true
    // light-moderate rain: green
    else if g > 180 && r < 180 && b < 180 then true
    // moderate rain: yellow
    else if r > 180 && g > 180 && b < 150 then true
    // heavy rain: orange
    else if r > 200 && g > 80 && g < 200 && b < 100 then true
    // very heavy rain: red
    else if r > 200 && g < 120 && b < 120 then true
    // extreme rain: magenta / purple
    else if r > 150 && b > 150 && g < 150 then true
    else false
  }

  /** Faint or near-black samples are never rain, whatever else holds. */
  lemma FaintOrDarkIsNotRain(r: int, g: int, b: int, a: int)
    requires a < 50 || (r < 30 && g < 30 && b < 30)
    ensures !IsRainPixel(r, g, b, a)
  {
  }

  predicate IsRed(r: int, g: int, b: int)     { r > 200 && g < 120 && b < 120 }
  predicate IsMagenta(r: int, g: int, b: int) { r > 150 && b > 150 && g < 150 }
  predicate IsOrange(r: int, g: int, b: int)  { r > 200 && g > 80 && g < 200 && b < 100 }
  predicate IsYellow(r: int, g: int, b: int)  { r > 180 && g > 180 && b < 150 }

  /** `getIntensity`: red, magenta and orange are heavy, yellow moderate, anything else light. */
  function PixelIntensity(r: int, g: int, b: int): (level: Intensity)
    ensures level == Heavy <==> IsRed(r, g, b) || IsMagenta(r, g, b) || IsOrange(r, g, b)
    ensures level == Moderate <==>
              !(IsRed(r, g, b) || IsMagenta(r, g, b) || IsOrange(r, g, b)) && IsYellow(r, g, b)
  {
    if (r > 200 && g < 120 && b < 120) || (r > 150 && b > 150 && g < 150) then Heavy
    else if r > 200 && g > 80 && g < 200 && b < 100 then Heavy
    else if r > 180 && g > 180 && b < 150 then Moderate
    else Light
  }

  /** A radar frame: 512 x 512, the size the scan's indexing assumes. */
  predicate IsRadarImage(img: Image)
  {
    img.Valid() && img.width == RadarSize && img.height == RadarSize
  }

  /** A position within `radius` of the centre, by the Euclidean distance. */
  predicate InDisk(cx: int, cy: int, radius: nat, p: Point)
  {
    (p.x - cx) * (p.x - cx) + (p.y - cy) * (p.y - cy) <= radius * radius
  }

  /** A pixel the scan counts: in the circle, on the image and rain. */
  predicate Counted(img: Image, cx: int, cy: int, radius: nat, p: Point)
    requires IsRadarImage(img)
  {
    && InDisk(cx, cy, radius, p)
    && img.Contains(p)
    && var px := img.At(p); IsRainPixel(px.r, px.g, px.b, px.a)
  }

  /** The inner `for x` loop of the scan along row `y`, from column `x` on. */
  function RowPixels(img: Image, cx: int, cy: int, radius: nat, y: int, x: int): (ps: seq<Point>)
    requires IsRadarImage(img)
    ensures forall p :: p in ps <==>
              p.y == y && x <= p.x <= cx + radius && Counted(img, cx, cy, radius, p)
    ensures forall i, j :: 0 <= i < j < |ps| ==> ps[i].y == ps[j].y && ps[i].x < ps[j].x
    decreases cx + radius - x
  {
    if x > cx + radius then []
    else
      var p := Point(x, y);
      var rest := RowPixels(img, cx, cy, radius, y, x + 1);
      if Counted(img, cx, cy, radius, p) then [p] + rest else rest
  }

  /**
   * The rain pixels the scan collects, rows `y` to `cy + radius`, in the order visited: each
   * counted pixel exactly once, in raster order.
   */
  function DiskPixels(img: Image, cx: int, cy: int, radius: nat, y: int): (ps: seq<Point>)
    requires IsRadarImage(img)
    ensures forall p :: p in ps <==>
              y <= p.y <= cy + radius && cx - radius <= p.x <= cx + radius
              && Counted(img, cx, cy, radius, p)
    ensures forall i, j :: 0 <= i < j < |ps| ==> RasterBefore(ps[i], ps[j])
    decreases cy + radius - y
  {
    if y > cy + radius then []
    else
      var row := RowPixels(img, cx, cy, radius, y, cx - radius);
      var rest := DiskPixels(img, cx, cy, radius, y + 1);
      assert forall i :: 0 <= i < |row| ==> row[i] in row;
      assert forall j :: 0 <= j < |rest| ==> rest[j] in rest;
      row + rest
  }

  /** A counted pixel lies in the square the scan visits. */
  lemma CountedInSquare(img: Image, cx: int, cy: int, radius: nat, p: Point)
    requires IsRadarImage(img) && Counted(img, cx, cy, radius, p)
    ensures cx - radius <= p.x <= cx + radius && cy - radius <= p.y <= cy + radius
  {
    DiskInSquare(p.x - cx, p.y - cy, radius);
  }

  lemma DiskInSquare(dx: int, dy: int, radius: int)
    requires 0 <= radius
    requires dx * dx + dy * dy <= radius * radius
    ensures -radius <= dx <= radius && -radius <= dy <= radius
  {
    SquareBound(dx, radius, dy * dy);
    SquareBound(dy, radius, dx * dx);
  }

  /** A square no greater than `radius²` (less some square) has a root within `radius`. */
  lemma SquareBound(d: int, radius: int, other: int)
    requires 0 <= radius && 0 <= other
    requires d * d + other <= radius * radius
    ensures -radius <= d <= radius
  {
    var a := if d >= 0 then d else -d;
    assert a * a == d * d;
    if a > radius {
      MulStrict(a, radius);
    }
  }

  lemma MulStrict(a: int, b: int)
    requires a > b >= 0
    ensures a * a > b * b
  {
    assert a * a - b * b == (a - b) * (a + b);
    assert (a - b) * (a + b) > 0;
  }

  /** The rain pixels of the whole scan. */
  function RainPixels(img: Image, cx: int, cy: int, radius: nat): (ps: seq<Point>)
    requires IsRadarImage(img)
    ensures forall p :: p in ps <==> Counted(img, cx, cy, radius, p)
    ensures forall i, j :: 0 <= i < j < |ps| ==> RasterBefore(ps[i], ps[j])
    ensures forall i :: 0 <= i < |ps| ==> img.Contains(ps[i])
  {
    var ps := DiskPixels(img, cx, cy, radius, cy - radius);
    assert forall i :: 0 <= i < |ps| ==> ps[i] in ps;
    assert forall p :: Counted(img, cx, cy, radius, p) ==> p in ps by {
      forall p | Counted(img, cx, cy, radius, p)
        ensures p in ps
      {
        CountedInSquare(img, cx, cy, radius, p);
      }
    }
    ps
  }

  /** How many of the pixels have intensity `level`. */
  function CountLevel(img: Image, ps: seq<Point>, level: Intensity): (n: nat)
    requires img.Valid() && forall i :: 0 <= i < |ps| ==> img.Contains(ps[i])
    ensures n <= |ps|
  {
    if |ps| == 0 then 0
    else
      var px := img.At(ps[|ps| - 1]);
      CountLevel(img, ps[..|ps| - 1], level) + (if PixelIntensity(px.r, px.g, px.b) == level then 1 else 0)
  }

  datatype ScanResult = ScanResult(found: bool, avgX: real, avgY: real, intensity: Intensity,
                                   pixelCount: nat)

  const NotFound: ScanResult := ScanResult(false, 0.0, 0.0, Light, 0)

  /**
   * The majority rule: heavy when more than a tenth of the pixels are heavy, else moderate when
   * more than a fifth are moderate, else light.
   */
  function Dominant(count: nat, heavy: nat, moderate: nat): (level: Intensity)
    ensures level == Heavy <==> 10 * heavy > count
    ensures level == Moderate <==> 10 * heavy <= count && 5 * moderate > count
  {
    if heavy as real > count as real * 0.1 then Heavy
    else if moderate as real > count as real * 0.2 then Moderate
    else Light
  }

  /**
   * `scanForRain`: whether any rain lies within `radius` of the centre on the image, the centroid
   * of the rain pixels, their dominant intensity and their number.
   */
  function ScanForRain(img: Image, cx: int, cy: int, radius: nat): (s: ScanResult)
    requires IsRadarImage(img)
    ensures s.found <==> s.pixelCount > 0
    ensures !s.found ==> s == NotFound
    ensures s.pixelCount == |RainPixels(img, cx, cy, radius)|
    ensures s.found ==>
              var ps := RainPixels(img, cx, cy, radius);
              && s.avgX == SumX(ps) as real / |ps| as real
              && s.avgY == SumY(ps) as real / |ps| as real
              && s.intensity == Dominant(|ps|, CountLevel(img, ps, Heavy), CountLevel(img, ps, Moderate))
    ensures s.found ==> (cx - radius) as real <= s.avgX <= (cx + radius) as real
    ensures s.found ==> (cy - radius) as real <= s.avgY <= (cy + radius) as real
    ensures s.found ==> 0.0 <= s.avgX <= (RadarSize - 1) as real
    ensures s.found ==> 0.0 <= s.avgY <= (RadarSize - 1) as real
  {
    var ps := RainPixels(img, cx, cy, radius);
    if |ps| == 0 then NotFound
    else
      var n := |ps|;
      var heavy := CountLevel(img, ps, Heavy);
      var moderate := CountLevel(img, ps, Moderate);
      CentroidBounds(img, cx, cy, radius, ps);
      ScanResult(true, SumX(ps) as real / n as real, SumY(ps) as real / n as real,
                 Dominant(n, heavy, moderate), n)
  }

  /** The centroid of counted pixels lies in the scanned square and on the image. */
  lemma CentroidBounds(img: Image, cx: int, cy: int, radius: nat, ps: seq<Point>)
    requires IsRadarImage(img) && |ps| > 0
    requires forall p :: p in ps ==> Counted(img, cx, cy, radius, p)
    ensures var n := |ps| as real;
            && (cx - radius) as real <= SumX(ps) as real / n <= (cx + radius) as real
            && (cy - radius) as real <= SumY(ps) as real / n <= (cy + radius) as real
            && 0.0 <= SumX(ps) as real / n <= (RadarSize - 1) as real
            && 0.0 <= SumY(ps) as real / n <= (RadarSize - 1) as real
  {
    forall p | p in ps
      ensures cx - radius <= p.x <= cx + radius && cy - radius <= p.y <= cy + radius
    {
      CountedInSquare(img, cx, cy, radius, p);
    }
    SumRange(ps, cx - radius, cx + radius, cy - radius, cy + radius);
    SumRange(ps, 0, RadarSize - 1, 0, RadarSize - 1);
    MeanBounds(SumX(ps), |ps|, cx - radius, cx + radius);
    MeanBounds(SumY(ps), |ps|, cy - radius, cy + radius);
    MeanBounds(SumX(ps), |ps|, 0, RadarSize - 1);
    MeanBounds(SumY(ps), |ps|, 0, RadarSize - 1);
  }

  lemma SumRange(ps: seq<Point>, xlo: int, xhi: int, ylo: int, yhi: int)
    requires forall p :: p in ps ==> xlo <= p.x <= xhi && ylo <= p.y <= yhi
    ensures xlo * |ps| <= SumX(ps) <= xhi * |ps|
    ensures ylo * |ps| <= SumY(ps) <= yhi * |ps|
  {
    assert forall i :: 0 <= i < |ps| ==> ps[i] in ps;
    SumXRange(ps, xlo, xhi);
    SumYRange(ps, ylo, yhi);
  }

  lemma {:induction false} SumXRange(ps: seq<Point>, lo: int, hi: int)
    requires forall i :: 0 <= i < |ps| ==> lo <= ps[i].x <= hi
    ensures lo * |ps| <= SumX(ps) <= hi * |ps|
  {
    if |ps| > 0 {
      var init := ps[..|ps| - 1];
      assert forall i :: 0 <= i < |init| ==> init[i] == ps[i];
      SumXRange(init, lo, hi);
      MulStep(lo, |init|);
      MulStep(hi, |init|);
    }
  }

  lemma {:induction false} SumYRange(ps: seq<Point>, lo: int, hi: int)
    requires forall i :: 0 <= i < |ps| ==> lo <= ps[i].y <= hi
    ensures lo * |ps| <= SumY(ps) <= hi * |ps|
  {
    if |ps| > 0 {
      var init := ps[..|ps| - 1];
      assert forall i :: 0 <= i < |init| ==> init[i] == ps[i];
      SumYRange(init, lo, hi);
      MulStep(lo, |init|);
      MulStep(hi, |init|);
    }
  }

  lemma MulStep(a: int, n: nat)
    ensures a * n + a == a * (n + 1)
  {
  }

  /**
   * The circle test as written (`sqrt(dx² + dy²) > radius` skips the pixel) agrees with the
   * squared comparison the model uses, for a host whose `sqrt` is the square root.
   */
  lemma CircleTestAgrees(h: Host, dx: int, dy: int, radius: nat)
    requires h.SqrtLaws()
    ensures h.sqrt((dx * dx + dy * dy) as real) > radius as real <==> dx * dx + dy * dy > radius * radius
  {
    var d := (dx * dx + dy * dy) as real;
    SquareNonNegative(dx);
    SquareNonNegative(dy);
    RootCompare(h.sqrt(d), radius as real, d);
    assert (radius * radius) as real == radius as real * radius as real;
  }

  lemma SquareNonNegative(x: int)
    ensures x * x >= 0
  {
    if x < 0 {
      assert x * x == (-x) * (-x);
    }
  }

  /** For non-negative `s` and `r`, `s > r` exactly when `s² > r²`. */
  lemma RootCompare(s: real, r: real, d: real)
    requires 0.0 <= s && 0.0 <= r && s * s == d
    ensures s > r <==> d > r * r
  {
    assert s * s - r * r == (s - r) * (s + r);
    if s > r {
      PositiveProduct(s - r, s + r);
    } else {
      NonNegativeProduct(r - s, r + s);
    }
  }
}
