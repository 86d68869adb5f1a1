/**
 * The point forecaster's decision logic (lib/weather/rain-predictor.ts): a two-point velocity
 * from the centroids of the rain near the target in successive frames, an eight-point compass,
 * and the first-match cascade that turns the latest frame and the velocity into a prediction.
 * The frames and the target pixel are inputs; converting a latitude and longitude to the pixel is
 * not part of this model.
 */
module RainPredictor {
  import opened Wrappers
  import opened JsMath
  import opened Raster
  import opened RainScan
  import opened Lookup

  /** A decoded radar frame and the time it was taken, in milliseconds since the epoch. */
  datatype RadarFrame = RadarFrame(image: Image, timestamp: int)

  predicate AllRadar(frames: seq<RadarFrame>)
  {
    forall i :: 0 <= i < |frames| ==> IsRadarImage(frames[i].image)
  }

  /** A frame's scan around the target, with the frame's time. */
  datatype Observation = Observation(scan: ScanResult, time: int)

  /** The scans of every frame at one radius, in frame order. */
  function Observe(frames: seq<RadarFrame>, cx: int, cy: int, radius: nat): (obs: seq<Observation>)
    requires AllRadar(frames)
    ensures |obs| == |frames|
    ensures forall i :: 0 <= i < |frames| ==>
              obs[i] == Observation(ScanForRain(frames[i].image, cx, cy, radius), frames[i].timestamp)
  {
    seq(|frames|, i requires 0 <= i < |frames| =>
      Observation(ScanForRain(frames[i].image, cx, cy, radius), frames[i].timestamp))
  }

  /** A tracked rain centroid and the time of its frame. */
  datatype Position = Position(x: real, y: real, time: int)

  /** A velocity in pixels per minute. */
  datatype Drift = Drift(vx: real, vy: real)

  /** The position a frame contributes: its scan centroid, when the scan holds more than five pixels. */
  function Track(o: Observation): (pos: Option<Position>)
    ensures pos.Some? <==> o.scan.found && o.scan.pixelCount > 5
    ensures pos.Some? ==> pos.value == Position(o.scan.avgX, o.scan.avgY, o.time)
  {
    if o.scan.found && o.scan.pixelCount > 5 then Some(Position(o.scan.avgX, o.scan.avgY, o.time))
    else None
  }

  /** The positions of the tracked frames, in frame order (the `positions` list). */
  function Positions(obs: seq<Observation>): (ps: seq<Position>)
    ensures |ps| <= |obs|
  {
    if |obs| == 0 then []
    else
      var init := Positions(obs[..|obs| - 1]);
      match Track(obs[|obs| - 1])
      case Some(pos) => init + [pos]
      case None => init
  }

  predicate Untracked(obs: seq<Observation>)
  {
    forall i :: 0 <= i < |obs| ==> Track(obs[i]).None?
  }

  /** Tracking distributes over concatenation: it is a filter followed by a map. */
  lemma {:induction false} PositionsAppend(a: seq<Observation>, b: seq<Observation>)
    ensures Positions(a + b) == Positions(a) + Positions(b)
    decreases |b|
  {
    var ab := a + b;
    if |b| > 0 {
      var b' := b[..|b| - 1];
      assert ab[..|ab| - 1] == a + b';
      assert ab[|ab| - 1] == b[|b| - 1];
      PositionsAppend(a, b');
    } else {
      assert ab == a;
    }
  }

  /** Frames with no tracked scan contribute nothing. */
  lemma {:induction false} UntrackedPositions(obs: seq<Observation>)
    requires Untracked(obs)
    ensures Positions(obs) == []
  {
    if |obs| > 0 {
      UntrackedPositions(obs[..|obs| - 1]);
    }
  }

  /** The positions are exactly the centroids of the tracked frames: a filter followed by a map. */
  lemma {:induction false} PositionsMembers(obs: seq<Observation>)
    ensures forall p :: p in Positions(obs) <==> exists i :: 0 <= i < |obs| && Track(obs[i]) == Some(p)
  {
    if |obs| > 0 {
      var init := obs[..|obs| - 1];
      PositionsMembers(init);
      assert forall i :: 0 <= i < |init| ==> init[i] == obs[i];
    }
  }

  /**
   * A position is tracked from the frames exactly when some frame's scan at that radius holds
   * more than five pixels, and it is that scan's centroid at that frame's time.
   */
  lemma TrackedFrames(frames: seq<RadarFrame>, cx: int, cy: int, radius: nat)
    requires AllRadar(frames)
    ensures forall p :: p in Positions(Observe(frames, cx, cy, radius)) <==>
              exists i :: 0 <= i < |frames| && ScanForRain(frames[i].image, cx, cy, radius).pixelCount > 5
                && p == Position(ScanForRain(frames[i].image, cx, cy, radius).avgX,
                                 ScanForRain(frames[i].image, cx, cy, radius).avgY, frames[i].timestamp)
  {
    PositionsMembers(Observe(frames, cx, cy, radius));
  }

  /** The first position is that of the first tracked frame. */
  lemma PositionsStartAtFirstTracked(before: seq<Observation>, o: Observation, after: seq<Observation>)
    requires Untracked(before) && Track(o).Some?
    ensures var ps := Positions(before + [o] + after); |ps| > 0 && ps[0] == Track(o).value
  {
    UntrackedPositions(before);
    PositionsAppend(before, [o]);
    PositionsAppend(before + [o], after);
    assert [o][..0] == [];
  }

  /** The last position is that of the last tracked frame. */
  lemma PositionsEndAtLastTracked(before: seq<Observation>, o: Observation, after: seq<Observation>)
    requires Untracked(after) && Track(o).Some?
    ensures var ps := Positions(before + [o] + after); |ps| > 0 && ps[|ps| - 1] == Track(o).value
  {
    UntrackedPositions(after);
    PositionsAppend(before, [o]);
    PositionsAppend(before + [o], after);
    assert [o][..0] == [];
  }

  /** Elapsed minutes between two positions. */
  function Minutes(first: Position, last: Position): real
  {
    (last.time - first.time) as real / 1000.0 / 60.0
  }

  /**
   * The velocity from the first tracked centroid to the last, per minute. No estimate from fewer
   * than two tracked frames or from frames taken at the same time.
   */
  function DriftOf(obs: seq<Observation>): (v: Option<Drift>)
    ensures var ps := Positions(obs);
            v.Some? <==> |ps| >= 2 && ps[0].time != ps[|ps| - 1].time
    ensures v.Some? ==>
              var ps := Positions(obs);
              var first, last, dt := ps[0], ps[|ps| - 1], Minutes(ps[0], ps[|ps| - 1]);
              dt != 0.0 && first.x + v.value.vx * dt == last.x && first.y + v.value.vy * dt == last.y
  {
    var ps := Positions(obs);
    if |ps| < 2 then None
    else
      var first, last := ps[0], ps[|ps| - 1];
      var dt := Minutes(first, last);
      if dt == 0.0 then None
      else Some(Drift((last.x - first.x) / dt, (last.y - first.y) / dt))
  }

  /** The two-point `calculateVelocity` over the frames' scans at one radius. */
  function TwoPointVelocity(frames: seq<RadarFrame>, cx: int, cy: int, radius: nat): (v: Option<Drift>)
    requires AllRadar(frames)
    ensures |frames| <= 1 ==> v.None?
  {
    var obs := Observe(frames, cx, cy, radius);
    DriftOf(obs)
  }

  /** Rain whose centroid does not move has zero velocity. */
  lemma StillRainHasZeroVelocity(obs: seq<Observation>)
    requires forall i, j :: 0 <= i < |obs| && 0 <= j < |obs| ==> obs[i].scan == obs[j].scan
    ensures DriftOf(obs) == None || DriftOf(obs) == Some(Drift(0.0, 0.0))
  {
    SameScansSamePlace(obs);
    var ps := Positions(obs);
    if |ps| >= 2 {
      assert ps[0].x == obs[0].scan.avgX && ps[0].y == obs[0].scan.avgY;
      assert ps[|ps| - 1].x == obs[0].scan.avgX && ps[|ps| - 1].y == obs[0].scan.avgY;
    }
  }

  lemma {:induction false} SameScansSamePlace(obs: seq<Observation>)
    requires forall i, j :: 0 <= i < |obs| && 0 <= j < |obs| ==> obs[i].scan == obs[j].scan
    ensures forall k :: 0 <= k < |Positions(obs)| ==>
              Positions(obs)[k].x == obs[0].scan.avgX && Positions(obs)[k].y == obs[0].scan.avgY
  {
    if |obs| > 0 {
      var init := obs[..|obs| - 1];
      SameScansSamePlace(init);
      if |init| > 0 {
        assert init[0] == obs[0];
      }
    }
  }

  /** Frames showing one picture give one scan at every frame. */
  lemma SameImagesSameScans(frames: seq<RadarFrame>, cx: int, cy: int, radius: nat)
    requires AllRadar(frames)
    requires forall i, j :: 0 <= i < |frames| && 0 <= j < |frames| ==> frames[i].image == frames[j].image
    ensures var obs := Observe(frames, cx, cy, radius);
            forall i, j :: 0 <= i < |obs| && 0 <= j < |obs| ==> obs[i].scan == obs[j].scan
  {
  }

  /** The eight compass points, clockwise from north. */
  const Compass8: seq<string> := ["N", "NE", "E", "SE", "S", "SW", "W", "NW"]

  /**
   * The label `velocityToDirection` reads for an angle of `angle` degrees: the entry at
   * `round(((angle + 180 + 360) % 360) / 45) % 8`, `None` where that index is negative.
   */
  function Direction8(angle: real): (name: Option<string>)
    ensures angle >= -540.0 ==> name.Some?
    ensures name.Some? ==> name.value in Compass8
  {
    var index := RemInt(Round(Rem360(angle + 180.0 + 360.0) / 45.0), 8);
    if index >= 0 then Some(Compass8[index]) else None
  }

  /**
   * `velocityToDirection`: the side the rain comes from, from `atan2(vx, -vy)` (screen `y` grows
   * southward). An angle in [-180, 180] always names one of the eight points.
   *
   * Zero drift is its own case. A centroid that did not move over a later frame gives `vy = +0`,
   * so the source takes `atan2(±0, -0)`, which is ±180 degrees, and both of those name "N".
   */
  function VelocityToDirection(h: Host, v: Drift): (name: string)
    requires h.Atan2Range()
    ensures name in Compass8
    ensures v.vx == 0.0 && v.vy == 0.0 ==> name == "N"
  {
    if v.vx == 0.0 && v.vy == 0.0 then Direction8(180.0).value
    else Direction8(h.atan2Deg(v.vx, -v.vy)).value
  }

  /** Both signs of the half turn `atan2(±0, -0)` name north, the label the zero drift gets. */
  lemma HalfTurnIsNorth()
    ensures Direction8(180.0) == Direction8(-180.0) == Some("N")
  {
  }

  /** Each label covers the 45-degree sector centred on its bearing from the opposite side. */
  lemma Direction8Sector(k: nat, angle: real)
    requires k < 8 && 45.0 * k as real - 22.5 <= angle + 180.0 < 45.0 * k as real + 22.5
    requires -180.0 <= angle
    ensures Direction8(angle) == Some(Compass8[k])
  {
    assert Rem360(angle + 540.0) == angle + 180.0;
    assert Round((angle + 180.0) / 45.0) == k;
  }

  /** Both ends of the angle range, rain moving due south on the screen, come from the north. */
  lemma Direction8WrapsAtNorth(angle: real)
    requires 157.5 <= angle <= 180.0 || -180.0 <= angle < -157.5
    ensures Direction8(angle) == Some("N")
  {
    if angle >= 180.0 {
      assert Rem360(angle + 540.0) == 0.0;
    } else if angle >= 157.5 {
      assert Rem360(angle + 540.0) == angle + 180.0;
      assert Round((angle + 180.0) / 45.0) == 8;
    } else {
      assert Rem360(angle + 540.0) == angle + 180.0;
      assert Round((angle + 180.0) / 45.0) == 0;
    }
  }

  /** The result of `predictRain`. */
  datatype Prediction = Prediction(willRain: bool, minutesUntil: Option<int>,
                                   intensity: Option<Intensity>, direction: string, confidence: int)

  /** No usable data: no frames, or the target off the radar image. */
  const NoData: Prediction := Prediction(false, None, None, "", 0)

  /** Nothing approaching within the horizon. */
  const Clear: Prediction := Prediction(false, None, None, "", 80)

  /** The small radius for rain already at the target, and the confidence then. */
  const OverheadRadius: nat := 8
  const OverheadConfidence: int := 95

  /** The search radii, innermost first. */
  const SearchRadii: seq<nat> := [10, 20, 40, 70, 100]

  /** The thresholds of the approach test. */
  const MinScanPixels: nat := 5
  const MinSpeed: real := 0.3
  const MinAlignment: real := 0.3
  const Horizon: real := 90.0

  /**
   * The tests an accepted approach has passed, given the scan of the latest frame and the
   * velocity at one radius: enough rain, a velocity, fast enough, heading toward the target,
   * directly enough, and arriving within the horizon.
   */
  ghost predicate Approaching(h: Host, target: Point, scan: ScanResult, vel: Option<Drift>)
  {
    && scan.found && scan.pixelCount >= MinScanPixels
    && vel.Some?
    && Speed(h, vel.value) >= MinSpeed
    && Closing(h, target, scan, vel.value)
  }

  /** The speed of a drift, in pixels per minute. */
  function Speed(h: Host, v: Drift): real
  {
    h.sqrt(v.vx * v.vx + v.vy * v.vy)
  }

  /** The distance from the rain centroid to the target, in pixels. */
  function Distance(h: Host, target: Point, scan: ScanResult): real
  {
    var dx, dy := target.x as real - scan.avgX, target.y as real - scan.avgY;
    h.sqrt(dx * dx + dy * dy)
  }

  /** The dot product of the centroid-to-target displacement and the velocity. */
  function Dot(target: Point, scan: ScanResult, v: Drift): real
  {
    (target.x as real - scan.avgX) * v.vx + (target.y as real - scan.avgY) * v.vy
  }

  /** Minutes until the rain reaches the target at its current speed. */
  function Eta(h: Host, target: Point, scan: ScanResult, v: Drift): real
    requires Speed(h, v) != 0.0
  {
    Distance(h, target, scan) / Speed(h, v)
  }

  /** How directly the rain heads for the target: the cosine of the angle between heading and target. */
  function Alignment(h: Host, target: Point, scan: ScanResult, v: Drift): real
    requires Distance(h, target, scan) > 0.0 && Speed(h, v) > 0.0
  {
    PositiveProduct(Distance(h, target, scan), Speed(h, v));
    Dot(target, scan, v) / (Distance(h, target, scan) * Speed(h, v))
  }

  /** Heading toward the target, directly enough, and arriving within the horizon. */
  ghost predicate Closing(h: Host, target: Point, scan: ScanResult, v: Drift)
  {
    && Dot(target, scan, v) > 0.0 && Distance(h, target, scan) > 0.0 && Speed(h, v) > 0.0
    && Alignment(h, target, scan, v) >= MinAlignment
    && 0.0 <= Eta(h, target, scan, v) <= Horizon
  }

  /** An approach prediction: rain within the horizon, with a direction and a clamped confidence. */
  ghost predicate ApproachShape(p: Prediction)
  {
    && p.willRain && p.intensity.Some? && p.direction in Compass8
    && p.minutesUntil.Some? && 0 <= p.minutesUntil.value <= 90
    && 40 <= p.confidence <= 90
  }

  /**
   * The body of the search loop once the scan and the velocity are known: the prediction when
   * every test passes, `None` (go on to the next radius) as soon as one fails.
   */
  function Judge(h: Host, target: Point, scan: ScanResult, vel: Option<Drift>): (p: Option<Prediction>)
    requires h.SqrtLaws() && h.Atan2Range()
    ensures p.Some? <==> Approaching(h, target, scan, vel)
    ensures p.Some? ==> ApproachShape(p.value) && p.value.intensity == Some(scan.intensity)
    ensures p.Some? ==>
              && vel.Some? && Closing(h, target, scan, vel.value)
              && p.value.minutesUntil == Some(MinutesUntil(Eta(h, target, scan, vel.value)))
              && p.value.confidence == Confidence(Eta(h, target, scan, vel.value), Alignment(h, target, scan, vel.value))
              && p.value.direction == VelocityToDirection(h, vel.value)
  {
    if !scan.found || scan.pixelCount < MinScanPixels then None
    else match vel
      case None => None
      case Some(v) =>
        if Speed(h, v) < MinSpeed then None
        else Close(h, target, scan, v)
  }

  /** The tests after the speed: heading, alignment and arrival time, then the prediction. */
  function Close(h: Host, target: Point, scan: ScanResult, v: Drift): (p: Option<Prediction>)
    requires h.SqrtLaws() && h.Atan2Range()
    requires Speed(h, v) >= MinSpeed
    ensures p.Some? <==> Closing(h, target, scan, v)
    ensures p.Some? ==> Closing(h, target, scan, v) && p.value == Announce(h, target, scan, v)
  {
    if Dot(target, scan, v) <= 0.0 then None
    else
      DistanceFromHeading(h, target, scan, v);
      if Alignment(h, target, scan, v) < MinAlignment then None
      else
        EtaNonNegative(Distance(h, target, scan), Speed(h, v));
        if Eta(h, target, scan, v) <= Horizon then Some(Announce(h, target, scan, v))
        else None
  }

  /** The prediction for rain that passed every test (the object literal of the approach branch). */
  function Announce(h: Host, target: Point, scan: ScanResult, v: Drift): (p: Prediction)
    requires h.SqrtLaws() && h.Atan2Range() && Closing(h, target, scan, v)
    ensures ApproachShape(p) && p.intensity == Some(scan.intensity)
    ensures p.minutesUntil == Some(MinutesUntil(Eta(h, target, scan, v)))
    ensures p.confidence == Confidence(Eta(h, target, scan, v), Alignment(h, target, scan, v))
    ensures p.direction == VelocityToDirection(h, v)
  {
    var eta := Eta(h, target, scan, v);
    Prediction(true, Some(MinutesUntil(eta)), Some(scan.intensity),
               VelocityToDirection(h, v), Confidence(eta, Alignment(h, target, scan, v)))
  }

  /** The announced arrival: the rounded ETA, within [0, 90] for an ETA within the horizon. */
  function MinutesUntil(eta: real): (m: int)
    requires 0.0 <= eta <= Horizon
    ensures 0 <= m <= 90
    ensures m as real - 0.5 <= eta < m as real + 0.5
  {
    Round(eta)
  }

  /**
   * The approach confidence: the mean of a distance score `max(0, 100 - eta)` and a direction
   * score `100 * factor`, rounded and clamped to [40, 90].
   */
  function Confidence(eta: real, factor: real): (c: int)
    ensures 40 <= c <= 90
    ensures var raw := Round((MaxReal(0.0, 100.0 - eta) + factor * 100.0) / 2.0);
            && (raw < 40 ==> c == 40)
            && (40 <= raw <= 90 ==> c == raw)
            && (raw > 90 ==> c == 90)
  {
    var raw := Round((MaxReal(0.0, 100.0 - eta) + factor * 100.0) / 2.0);
    var floored := if raw >= 40 then raw else 40;
    if floored <= 90 then floored else 90
  }

  /** A sooner arrival, with the same alignment, never lowers the confidence. */
  lemma ConfidenceFallsWithEta(eta1: real, eta2: real, factor: real)
    requires eta1 <= eta2
    ensures Confidence(eta1, factor) >= Confidence(eta2, factor)
  {
    var a := (MaxReal(0.0, 100.0 - eta1) + factor * 100.0) / 2.0;
    var b := (MaxReal(0.0, 100.0 - eta2) + factor * 100.0) / 2.0;
    assert a >= b;
    RoundMonotone(b, a);
  }

  lemma RoundMonotone(x: real, y: real)
    requires x <= y
    ensures Round(x) <= Round(y)
  {
  }

  /** A positive heading product needs a non-zero displacement, so the distance is positive. */
  lemma DistanceFromHeading(h: Host, target: Point, scan: ScanResult, v: Drift)
    requires h.SqrtLaws() && Dot(target, scan, v) > 0.0
    ensures Distance(h, target, scan) > 0.0
  {
    var dx, dy := target.x as real - scan.avgX, target.y as real - scan.avgY;
    RealSquareNonNegative(dx);
    RealSquareNonNegative(dy);
    if dx == 0.0 {
      assert dy != 0.0;
      NonZeroSquare(dy);
    } else {
      NonZeroSquare(dx);
    }
    SqrtPositive(h, dx * dx + dy * dy);
  }

  lemma EtaNonNegative(distance: real, speed: real)
    requires distance > 0.0 && speed > 0.0
    ensures distance / speed >= 0.0
  {
  }

  /** Rain that does not move is never approaching. */
  lemma ZeroDriftNeverApproaches(h: Host, target: Point, scan: ScanResult)
    requires h.SqrtLaws()
    ensures !Approaching(h, target, scan, Some(Drift(0.0, 0.0)))
  {
    assert h.sqrt(0.0) * h.sqrt(0.0) == 0.0;
  }

  /** The scan of the latest frame at one radius. */
  function LatestScan(frames: seq<RadarFrame>, target: Point, radius: nat): ScanResult
    requires AllRadar(frames) && |frames| > 0
  {
    ScanForRain(frames[|frames| - 1].image, target.x, target.y, radius)
  }

  /**
   * One pass of the search loop at `radius`: the latest frame's scan, skipped when it holds fewer
   * than five pixels, then the velocity and the remaining tests.
   */
  function Assess(h: Host, frames: seq<RadarFrame>, target: Point, radius: nat): (p: Option<Prediction>)
    requires h.SqrtLaws() && h.Atan2Range()
    requires AllRadar(frames) && |frames| > 0
    ensures p.Some? <==>
              Approaching(h, target, LatestScan(frames, target, radius),
                          TwoPointVelocity(frames, target.x, target.y, radius))
    ensures p.Some? ==>
              ApproachShape(p.value) && p.value.intensity == Some(LatestScan(frames, target, radius).intensity)
  {
    var scan := LatestScan(frames, target, radius);
    if !scan.found || scan.pixelCount < MinScanPixels then None
    else Judge(h, target, scan, TwoPointVelocity(frames, target.x, target.y, radius))
  }

  /**
   * The search loop over the radii: the approach found at the first radius whose pass accepts
   * one, else clear.
   */
  function Approach(h: Host, frames: seq<RadarFrame>, target: Point, radii: seq<nat>): (p: Prediction)
    requires h.SqrtLaws() && h.Atan2Range()
    requires AllRadar(frames) && |frames| > 0
    ensures p == Clear || ApproachShape(p)
  {
    match FindFirst(radii, (r: nat) => Assess(h, frames, target, r).Some?)
    case None => Clear
    case Some(i) => Assess(h, frames, target, radii[i]).value
  }

  /** The search reports clear exactly when every pass rejects. */
  lemma ApproachClear(h: Host, frames: seq<RadarFrame>, target: Point, radii: seq<nat>)
    requires h.SqrtLaws() && h.Atan2Range()
    requires AllRadar(frames) && |frames| > 0
    ensures Approach(h, frames, target, radii) == Clear <==>
              forall i :: 0 <= i < |radii| ==> Assess(h, frames, target, radii[i]).None?
  {
  }

  /** Otherwise it reports what the first accepting pass found. */
  lemma ApproachFirst(h: Host, frames: seq<RadarFrame>, target: Point, radii: seq<nat>)
    requires h.SqrtLaws() && h.Atan2Range()
    requires AllRadar(frames) && |frames| > 0
    ensures Approach(h, frames, target, radii) != Clear ==>
              exists i :: 0 <= i < |radii|
                && Assess(h, frames, target, radii[i]) == Some(Approach(h, frames, target, radii))
                && forall j :: 0 <= j < i ==> Assess(h, frames, target, radii[j]).None?
  {
  }

  /**
   * `predictRain` on decoded frames and a target pixel: no data without frames or off the image,
   * overhead rain when the latest frame shows rain within eight pixels, else the first approach
   * found over the search radii, else clear.
   */
  function PredictRain(h: Host, frames: seq<RadarFrame>, target: Point): (p: Prediction)
    requires h.SqrtLaws() && h.Atan2Range()
    requires AllRadar(frames)
    ensures p.confidence == 0 <==> |frames| == 0 || !(0 <= target.x < RadarSize && 0 <= target.y < RadarSize)
    ensures p.confidence == 0 ==> p == NoData
    ensures !p.willRain ==> p == NoData || p == Clear
    ensures p.willRain ==>
              (p.direction == "overhead" && p.minutesUntil == Some(0) && p.confidence == 95)
              || ApproachShape(p)
    ensures p.direction == "overhead" <==>
              && |frames| > 0 && 0 <= target.x < RadarSize && 0 <= target.y < RadarSize
              && ScanForRain(frames[|frames| - 1].image, target.x, target.y, OverheadRadius).found
    ensures p.direction == "overhead" ==>
              |frames| > 0 && p.intensity == Some(ScanForRain(frames[|frames| - 1].image, target.x, target.y, OverheadRadius).intensity)
    ensures && |frames| > 0 && 0 <= target.x < RadarSize && 0 <= target.y < RadarSize
            && !ScanForRain(frames[|frames| - 1].image, target.x, target.y, OverheadRadius).found
            ==> p == Approach(h, frames, target, SearchRadii)
  {
    if |frames| == 0 then NoData
    else if target.x < 0 || target.x >= RadarSize || target.y < 0 || target.y >= RadarSize then NoData
    else PredictOnImage(h, frames, target)
  }

  /** `predictRain` once there are frames and the target lies on the image. */
  function PredictOnImage(h: Host, frames: seq<RadarFrame>, target: Point): (p: Prediction)
    requires h.SqrtLaws() && h.Atan2Range()
    requires AllRadar(frames) && |frames| > 0
    requires 0 <= target.x < RadarSize && 0 <= target.y < RadarSize
    ensures p.confidence != 0 && p != NoData
    ensures !p.willRain ==> p == Clear
    ensures p.willRain ==>
              (p.direction == "overhead" && p.minutesUntil == Some(0) && p.confidence == 95)
              || ApproachShape(p)
    ensures p.direction == "overhead" <==>
              ScanForRain(frames[|frames| - 1].image, target.x, target.y, OverheadRadius).found
    ensures p.direction == "overhead" ==>
              p.intensity == Some(ScanForRain(frames[|frames| - 1].image, target.x, target.y, OverheadRadius).intensity)
    ensures !ScanForRain(frames[|frames| - 1].image, target.x, target.y, OverheadRadius).found ==>
              p == Approach(h, frames, target, SearchRadii)
  {
    var atLocation := ScanForRain(frames[|frames| - 1].image, target.x, target.y, OverheadRadius);
    if atLocation.found then
      Prediction(true, Some(0), Some(atLocation.intensity), "overhead", OverheadConfidence)
    else
      var p := Approach(h, frames, target, SearchRadii);
      OverheadIsNoHeading();
      p
  }

  /** The overhead label is not one of the eight headings. */
  lemma OverheadIsNoHeading()
    ensures forall i :: 0 <= i < |Compass8| ==> Compass8[i] != "overhead"
  {
  }

  /** With a single frame there is no velocity, so rain is either overhead or not predicted. */
  lemma OneFrameNeverApproaches(h: Host, frames: seq<RadarFrame>, target: Point)
    requires h.SqrtLaws() && h.Atan2Range()
    requires AllRadar(frames) && |frames| == 1
    ensures var p := PredictRain(h, frames, target); p.willRain ==> p.direction == "overhead"
  {
    forall radius: nat
      ensures Assess(h, frames, target, radius).None?
    {
      assert TwoPointVelocity(frames, target.x, target.y, radius).None?;
    }
    ApproachClear(h, frames, target, SearchRadii);
  }

  /** A radar showing the same picture in every frame predicts no approaching rain. */
  lemma StillRadarNeverApproaches(h: Host, frames: seq<RadarFrame>, target: Point)
    requires h.SqrtLaws() && h.Atan2Range()
    requires AllRadar(frames)
    requires forall i, j :: 0 <= i < |frames| && 0 <= j < |frames| ==> frames[i].image == frames[j].image
    ensures var p := PredictRain(h, frames, target); p.willRain ==> p.direction == "overhead"
  {
    if |frames| > 0 {
      forall radius: nat
        ensures Assess(h, frames, target, radius).None?
      {
        var obs := Observe(frames, target.x, target.y, radius);
        SameImagesSameScans(frames, target.x, target.y, radius);
        StillRainHasZeroVelocity(obs);
        ZeroDriftNeverApproaches(h, target, LatestScan(frames, target, radius));
      }
    }
  }
}
