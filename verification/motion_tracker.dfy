/**
 * The full-field velocity of lib/radar/motion-tracker.ts: the cells of each consecutive pair of
 * frames are matched, every match contributes its centroid displacement weighted by the smaller
 * of the two areas over 1000, and the velocity is the weighted mean displacement, in pixels per
 * frame pair. Also the 16-point compass label of a direction.
 */
module MotionTracker {
  import opened Wrappers
  import opened JsMath
  import opened Raster
  import opened CellExtractor
  import opened RainCells
  import opened CellMatcher

  datatype Velocity = Velocity(vx: real, vy: real, speed: real, direction: real)

  /** What `calculateVelocity` returns when there is nothing to track. */
  const Still: Velocity := Velocity(0.0, 0.0, 0.0, 0.0)

  /** Minutes between radar frames, the divisor of the speed conversion. */
  const FrameInterval: real := 6.0

  /** One matched pair of cells: displacement and weight. */
  datatype Sample = Sample(dx: real, dy: real, weight: real)

  /** The sample a match contributes. */
  function SampleOf(p: RainCell, c: RainCell): (s: Sample)
    ensures p.area > 0 && c.area > 0 ==> s.weight > 0.0
    ensures s.weight * 1000.0 == (if p.area <= c.area then p.area else c.area) as real
  {
    Sample(c.x - p.x, c.y - p.y, (if p.area <= c.area then p.area else c.area) as real / 1000.0)
  }

  /** The samples of the matches `m`, in the map's iteration order. */
  function MatchSamples(prevCells: seq<RainCell>, currCells: seq<RainCell>, m: seq<Pair>)
    : (ss: seq<Sample>)
    requires forall k :: 0 <= k < |m| ==> m[k].prev < |prevCells| && m[k].curr < |currCells|
    ensures |ss| == |m|
    ensures forall k :: 0 <= k < |m| ==> ss[k] == SampleOf(prevCells[m[k].prev], currCells[m[k].curr])
  {
    if |m| == 0 then []
    else
      MatchSamples(prevCells, currCells, m[..|m| - 1])
        + [SampleOf(prevCells[m[|m| - 1].prev], currCells[m[|m| - 1].curr])]
  }

  /** The samples of one frame pair: its cells matched with the default maximum distance. */
  function PairSamples(h: Host, a: Image, b: Image): (ss: seq<Sample>)
    requires a.Valid() && b.Valid()
    ensures forall k :: 0 <= k < |ss| ==> ss[k].weight > 0.0
  {
    var prevCells, currCells := FindRainCells(a), FindRainCells(b);
    MatchSamples(prevCells, currCells, MatchCells(h, prevCells, currCells, DefaultMaxDistance))
  }

  ghost predicate AllValid(frames: seq<Image>)
  {
    forall i :: 0 <= i < |frames| ==> frames[i].Valid()
  }

  /** Every sample of every consecutive frame pair, oldest pair first. */
  function FramesSamples(h: Host, frames: seq<Image>): (ss: seq<Sample>)
    requires AllValid(frames)
    ensures forall k :: 0 <= k < |ss| ==> ss[k].weight > 0.0
    ensures |ss| > 0 <==> SumWeight(ss) > 0.0
  {
    if |frames| < 2 then []
    else
      var ss := FramesSamples(h, frames[..|frames| - 1])
                  + PairSamples(h, frames[|frames| - 2], frames[|frames| - 1]);
      SumWeightPositive(ss);
      ss
  }

  /** The two displacement components. */
  datatype Axis = X | Y

  function Along(s: Sample, axis: Axis): real
  {
    if axis == X then s.dx else s.dy
  }

  function SumWeight(ss: seq<Sample>): real
  {
    if |ss| == 0 then 0.0 else SumWeight(ss[..|ss| - 1]) + ss[|ss| - 1].weight
  }

  /** The weighted sum of the displacements along `axis` (`totalVx` / `totalVy`). */
  function SumAlong(ss: seq<Sample>, axis: Axis): real
  {
    if |ss| == 0 then 0.0
    else SumAlong(ss[..|ss| - 1], axis) + Along(ss[|ss| - 1], axis) * ss[|ss| - 1].weight
  }

  lemma {:induction false} SumsAppend(a: seq<Sample>, b: seq<Sample>)
    ensures SumWeight(a + b) == SumWeight(a) + SumWeight(b)
    ensures forall axis :: SumAlong(a + b, axis) == SumAlong(a, axis) + SumAlong(b, axis)
    decreases |b|
  {
    if |b| == 0 {
      assert a + b == a;
    } else {
      var b' := b[..|b| - 1];
      SumsAppend(a, b');
      assert (a + b)[..|a + b| - 1] == a + b';
    }
  }

  /** Positive weights add up to zero only when there are no samples. */
  lemma {:induction false} SumWeightPositive(ss: seq<Sample>)
    requires forall k :: 0 <= k < |ss| ==> ss[k].weight > 0.0
    ensures |ss| > 0 <==> SumWeight(ss) > 0.0
    ensures SumWeight(ss) >= 0.0
  {
    if |ss| > 0 {
      var init := ss[..|ss| - 1];
      assert forall k :: 0 <= k < |init| ==> init[k] == ss[k];
      SumWeightPositive(init);
    }
  }

  /** The least displacement along `axis` among the samples. */
  function MinAlong(ss: seq<Sample>, axis: Axis): (lo: real)
    requires |ss| > 0
    ensures forall k :: 0 <= k < |ss| ==> lo <= Along(ss[k], axis)
    ensures exists k :: 0 <= k < |ss| && lo == Along(ss[k], axis)
  {
    if |ss| == 1 then Along(ss[0], axis)
    else
      var init := ss[..|ss| - 1];
      assert forall k :: 0 <= k < |init| ==> init[k] == ss[k];
      MinReal(MinAlong(init, axis), Along(ss[|ss| - 1], axis))
  }

  /** The greatest displacement along `axis` among the samples. */
  function MaxAlong(ss: seq<Sample>, axis: Axis): (hi: real)
    requires |ss| > 0
    ensures forall k :: 0 <= k < |ss| ==> Along(ss[k], axis) <= hi
    ensures exists k :: 0 <= k < |ss| && hi == Along(ss[k], axis)
  {
    if |ss| == 1 then Along(ss[0], axis)
    else
      var init := ss[..|ss| - 1];
      assert forall k :: 0 <= k < |init| ==> init[k] == ss[k];
      MaxReal(MaxAlong(init, axis), Along(ss[|ss| - 1], axis))
  }

  lemma MulMonotone(a: real, b: real, w: real)
    requires a <= b && w >= 0.0
    ensures a * w <= b * w
  {
    assert b * w - a * w == (b - a) * w;
  }

  /**
   * With positive weights, a weighted sum of values in [lo, hi] lies between `lo` and `hi` times
   * the total weight.
   */
  lemma {:induction false} WeightedSumBounds(ss: seq<Sample>, axis: Axis, lo: real, hi: real)
    requires forall k :: 0 <= k < |ss| ==> ss[k].weight > 0.0
    requires forall k :: 0 <= k < |ss| ==> lo <= Along(ss[k], axis) <= hi
    ensures lo * SumWeight(ss) <= SumAlong(ss, axis) <= hi * SumWeight(ss)
  {
    if |ss| > 0 {
      var init, last := ss[..|ss| - 1], ss[|ss| - 1];
      assert forall k :: 0 <= k < |init| ==> init[k] == ss[k];
      WeightedSumBounds(init, axis, lo, hi);
      assert SumAlong(ss, axis) == SumAlong(init, axis) + Along(last, axis) * last.weight;
      assert SumWeight(ss) == SumWeight(init) + last.weight;
      BoundStep(SumAlong(init, axis), SumWeight(init), Along(last, axis), last.weight, lo, hi);
    }
  }

  /** One more weighted value in [lo, hi] keeps the running sum within the scaled bounds. */
  lemma BoundStep(s: real, w: real, v: real, vw: real, lo: real, hi: real)
    requires lo * w <= s <= hi * w && lo <= v <= hi && vw >= 0.0
    ensures lo * (w + vw) <= s + v * vw <= hi * (w + vw)
  {
    MulMonotone(lo, v, vw);
    MulMonotone(v, hi, vw);
    assert lo * (w + vw) == lo * w + lo * vw;
    assert hi * (w + vw) == hi * w + hi * vw;
  }

  /** A quotient by a positive divisor between `lo * d` and `hi * d` lies between `lo` and `hi`. */
  lemma QuotientBounds(s: real, d: real, lo: real, hi: real)
    requires d > 0.0 && lo * d <= s <= hi * d
    ensures lo <= s / d <= hi
  {
    var q := s / d;
    assert q * d == s;
  }

  lemma SumsSnoc(ss: seq<Sample>, k: nat)
    requires k < |ss|
    ensures SumWeight(ss[..k + 1]) == SumWeight(ss[..k]) + ss[k].weight
    ensures SumAlong(ss[..k + 1], X) == SumAlong(ss[..k], X) + ss[k].dx * ss[k].weight
    ensures SumAlong(ss[..k + 1], Y) == SumAlong(ss[..k], Y) + ss[k].dy * ss[k].weight
  {
    assert ss[..k + 1][..k] == ss[..k];
  }

  /** The weighted mean along `axis` lies between the least and the greatest displacement. */
  lemma MeanWithinRange(ss: seq<Sample>, axis: Axis, total: real, weight: real)
    requires forall k :: 0 <= k < |ss| ==> ss[k].weight > 0.0
    requires total == SumAlong(ss, axis) && weight == SumWeight(ss) && weight != 0.0
    ensures |ss| > 0
    ensures MinAlong(ss, axis) <= total / weight <= MaxAlong(ss, axis)
  {
    SumWeightPositive(ss);
    WeightedSumBounds(ss, axis, MinAlong(ss, axis), MaxAlong(ss, axis));
    QuotientBounds(total, weight, MinAlong(ss, axis), MaxAlong(ss, axis));
  }

  /** The weighted mean displacement along `axis`: `totalVx / totalSamples` or `totalVy / totalSamples`. */
  function MeanAlong(ss: seq<Sample>, axis: Axis): real
    requires SumWeight(ss) > 0.0
  {
    SumAlong(ss, axis) / SumWeight(ss)
  }

  /** The weighted sums of the samples of one frame pair (the inner `for ... of matches` loop). */
  method SampleTotals(ss: seq<Sample>) returns (tx: real, ty: real, tw: real)
    ensures tx == SumAlong(ss, X) && ty == SumAlong(ss, Y) && tw == SumWeight(ss)
  {
    tx, ty, tw := 0.0, 0.0, 0.0;
    var k := 0;
    while k < |ss|
      invariant 0 <= k <= |ss|
      invariant tx == SumAlong(ss[..k], X) && ty == SumAlong(ss[..k], Y)
      invariant tw == SumWeight(ss[..k])
    {
      SumsSnoc(ss, k);
      tx := tx + ss[k].dx * ss[k].weight;
      ty := ty + ss[k].dy * ss[k].weight;
      tw := tw + ss[k].weight;
      k := k + 1;
    }
    assert ss[..k] == ss;
  }

  /** Adding the sums of pair `i` to the sums of the pairs before it. */
  lemma FramesSamplesSnoc(h: Host, frames: seq<Image>, i: nat, done: seq<Sample>, pair: seq<Sample>)
    requires AllValid(frames) && i + 1 < |frames|
    requires done == FramesSamples(h, frames[..i + 1])
    requires pair == PairSamples(h, frames[i], frames[i + 1])
    ensures var next := FramesSamples(h, frames[..i + 2]);
            && SumAlong(next, X) == SumAlong(done, X) + SumAlong(pair, X)
            && SumAlong(next, Y) == SumAlong(done, Y) + SumAlong(pair, Y)
            && SumWeight(next) == SumWeight(done) + SumWeight(pair)
  {
    assert frames[..i + 2][..i + 1] == frames[..i + 1];
    assert FramesSamples(h, frames[..i + 2]) == done + pair;
    SumsAppend(done, pair);
  }

  /** The outer `for i` loop of `calculateVelocity`: the weighted sums over all frame pairs. */
  method FramesTotals(h: Host, frames: seq<Image>) returns (tx: real, ty: real, tw: real)
    requires AllValid(frames) && |frames| >= 2
    ensures var ss := FramesSamples(h, frames);
            tx == SumAlong(ss, X) && ty == SumAlong(ss, Y) && tw == SumWeight(ss)
  {
    tx, ty, tw := 0.0, 0.0, 0.0;
    var i := 0;
    while i < |frames| - 1
      invariant 0 <= i <= |frames| - 1
      invariant var done := FramesSamples(h, frames[..i + 1]);
                tx == SumAlong(done, X) && ty == SumAlong(done, Y) && tw == SumWeight(done)
    {
      var pair := PairSamples(h, frames[i], frames[i + 1]);
      var px, py, pw := SampleTotals(pair);
      FramesSamplesSnoc(h, frames, i, FramesSamples(h, frames[..i + 1]), pair);
      tx, ty, tw := tx + px, ty + py, tw + pw;
      i := i + 1;
    }
    assert frames[..i + 1] == frames;
  }

  /**
   * `calculateVelocity`: zero for fewer than two frames or no matches; otherwise the weighted
   * mean displacement, which lies between the least and the greatest matched displacement, with
   * its speed in km/h and the bearing it moves toward, in degrees clockwise from north (screen
   * `y` grows southward, hence `atan2(-vx, vy)`), brought into [0, 360). A first frame of width
   * zero would make the speed infinite; the speed is not specified then.
   */
  method CalculateVelocity(h: Host, frames: seq<Image>, radarRangeKm: real) returns (v: Velocity)
    requires AllValid(frames)
    ensures |frames| < 2 ==> v == Still
    ensures |FramesSamples(h, frames)| == 0 ==> v == Still
    ensures var ss := FramesSamples(h, frames);
            |ss| > 0 ==> v.vx == MeanAlong(ss, X) && v.vy == MeanAlong(ss, Y)
    ensures var ss := FramesSamples(h, frames);
            |ss| > 0 ==> MinAlong(ss, X) <= v.vx <= MaxAlong(ss, X) && MinAlong(ss, Y) <= v.vy <= MaxAlong(ss, Y)
    ensures |FramesSamples(h, frames)| > 0 ==> v.direction == Bearing(h, v.vx, v.vy)
    ensures |frames| >= 2 && |FramesSamples(h, frames)| > 0 && frames[0].width > 0 ==>
              v.speed == SpeedKmh(h, v.vx, v.vy, radarRangeKm, frames[0].width)
    ensures h.Atan2Range() ==> 0.0 <= v.direction < 360.0
    ensures h.SqrtLaws() && radarRangeKm >= 0.0 ==> v.speed >= 0.0
  {
    if |frames| < 2 {
      assert |FramesSamples(h, frames)| == 0;
      return Still;
    }
    var totalVx, totalVy, samples := FramesTotals(h, frames);
    ghost var ss := FramesSamples(h, frames);
    if samples == 0.0 {
      assert |ss| == 0;
      return Still;
    }
    var vx, vy := totalVx / samples, totalVy / samples;
    assert vx == MeanAlong(ss, X) && vy == MeanAlong(ss, Y);
    MeanWithinRange(ss, X, totalVx, samples);
    MeanWithinRange(ss, Y, totalVy, samples);
    v := Moving(h, vx, vy, radarRangeKm, frames[0].width);
  }

  /** The velocity of a mean displacement: its speed in km/h and the bearing it moves toward. */
  function Moving(h: Host, vx: real, vy: real, radarRangeKm: real, width: nat): (v: Velocity)
    ensures v.vx == vx && v.vy == vy
    ensures v.direction == Bearing(h, vx, vy)
    ensures width > 0 ==> v.speed == SpeedKmh(h, vx, vy, radarRangeKm, width)
    ensures h.Atan2Range() ==> 0.0 <= v.direction < 360.0
    ensures h.SqrtLaws() && radarRangeKm >= 0.0 ==> v.speed >= 0.0
  {
    var speed := if width > 0 then SpeedKmh(h, vx, vy, radarRangeKm, width) else 0.0;
    Velocity(vx, vy, speed, Bearing(h, vx, vy))
  }

  /**
   * The bearing a displacement moves toward, in degrees clockwise from north: screen `y` grows
   * southward, hence `atan2(-vx, vy)`, shifted by a full turn and reduced into [0, 360).
   */
  function Bearing(h: Host, vx: real, vy: real): (b: real)
    ensures h.Atan2Range() ==> 0.0 <= b < 360.0
    ensures h.Atan2Range() && vx == 0.0 && vy == 0.0 ==> b == 0.0
  {
    Rem360(h.atan2Deg(-vx, vy) + 360.0)
  }

  /** The speed conversion: pixels per frame pair to km/h on a radar of the given range. */
  function SpeedKmh(h: Host, vx: real, vy: real, radarRangeKm: real, width: nat): (speed: real)
    requires width > 0
    ensures h.SqrtLaws() && radarRangeKm >= 0.0 ==> speed >= 0.0
  {
    var pixelSpeed := h.sqrt(vx * vx + vy * vy);
    var kmPerPixel := (radarRangeKm * 2.0) / width as real;
    assert h.SqrtLaws() && radarRangeKm >= 0.0 ==> pixelSpeed * kmPerPixel >= 0.0 by {
      if h.SqrtLaws() && radarRangeKm >= 0.0 {
        assert vx * vx + vy * vy >= 0.0;
        MulMonotone(0.0, kmPerPixel, pixelSpeed);
      }
    }
    pixelSpeed * kmPerPixel / FrameInterval * 60.0
  }

  /** The sixteen compass points, clockwise from north. */
  const Compass16: seq<string> :=
    ["N", "NNE", "NE", "ENE", "E", "ESE", "SE", "SSE",
     "S", "SSW", "SW", "WSW", "W", "WNW", "NW", "NNW"]

  /**
   * `directionToCompass`: the label at index `round(degrees / 22.5) % 16`. A negative index
   * (degrees below -11.25 and not within half a sector of a multiple of 360) reads past the
   * array, which JavaScript answers with `undefined`: `None` here.
   */
  function DirectionToCompass(degrees: real): (name: Option<string>)
    ensures degrees >= -11.25 ==> name.Some?
    ensures name.Some? ==> name.value in Compass16
  {
    var index := RemInt(Round(degrees / 22.5), 16);
    if index >= 0 then Some(Compass16[index]) else None
  }

  /** Each label covers the 22.5-degree sector centred on its bearing, closed below. */
  lemma CompassSector(k: nat, degrees: real)
    requires k < 16 && 22.5 * k as real - 11.25 <= degrees < 22.5 * k as real + 11.25
    ensures DirectionToCompass(degrees) == Some(Compass16[k])
  {
    assert Round(degrees / 22.5) == k;
  }

  /** North covers both ends of the circle: 0 and 360 give the same label. */
  lemma CompassWrapsAtNorth(degrees: real)
    requires 348.75 <= degrees < 371.25 || -11.25 <= degrees < 11.25
    ensures DirectionToCompass(degrees) == Some("N")
  {
    if degrees >= 348.75 {
      assert Round(degrees / 22.5) == 16;
    } else {
      assert Round(degrees / 22.5) == 0;
    }
  }

  /** A tracked direction always has a label. */
  lemma VelocityHasCompass(v: Velocity)
    requires 0.0 <= v.direction < 360.0
    ensures DirectionToCompass(v.direction).Some?
  {
  }
}
