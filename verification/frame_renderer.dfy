/**
 * The frame extrapolator of lib/radar/frame-renderer.ts: a predicted frame is the current frame
 * with every opaque pixel moved rigidly by the velocity scaled to the horizon, pixels moved off
 * the image dropped, and a confidence that falls with the horizon. `generatePredictedFrames`
 * renders one such frame per multiple of the interval up to the last horizon.
 */
module FrameRenderer {
  import opened JsMath
  import opened Raster
  import MotionTracker

  /** The default `frameInterval`: minutes between the frames the velocity was measured over. */
  const DefaultFrameInterval: real := 6.0

  /** Alpha below this is treated as empty and never copied. */
  const OpaqueAlpha: int := 128

  predicate Opaque(px: Rgba)
  {
    px.a >= OpaqueAlpha
  }

  /**
   * The whole-pixel shift for one axis: the velocity (pixels per frame interval) times the number
   * of intervals ahead, rounded half toward positive infinity.
   */
  function Shift(v: real, minutesAhead: real, frameInterval: real): (s: int)
    requires frameInterval != 0.0
    ensures s as real - 0.5 <= v * (minutesAhead / frameInterval) < s as real + 0.5
  {
    Round(v * (minutesAhead / frameInterval))
  }

  /** A negative half-pixel shift rounds up to zero, not down to minus one. */
  lemma ShiftRoundsHalfUp()
    ensures Shift(-0.5, 6.0, 6.0) == 0
    ensures Shift(-1.5, 6.0, 6.0) == -1
    ensures Shift(1.5, 6.0, 6.0) == 2
  {
  }

  /** No motion, no shift, whatever the horizon. */
  lemma StillShiftsNothing(minutesAhead: real, frameInterval: real)
    requires frameInterval != 0.0
    ensures Shift(0.0, minutesAhead, frameInterval) == 0
  {
  }

  /** The source position whose pixel lands on `p`. */
  function Origin(p: Point, sx: int, sy: int): Point
  {
    Point(p.x - sx, p.y - sy)
  }

  /** Where the pixel at `q` lands. */
  function Target(q: Point, sx: int, sy: int): Point
  {
    Point(q.x + sx, q.y + sy)
  }

  /**
   * The reference predicted frame, read per destination pixel: the pixel that lands on `p` when
   * its origin is on the source image and opaque, transparent otherwise.
   */
  function Pull(src: Image, sx: int, sy: int, p: Point): Rgba
    requires src.Valid()
  {
    var q := Origin(p, sx, sy);
    if src.Contains(q) && Opaque(src.At(q)) then src.At(q) else Transparent
  }

  function Shifted(src: Image, sx: int, sy: int): (dst: Image)
    requires src.Valid()
    ensures dst.Valid() && dst.width == src.width && dst.height == src.height
    ensures forall p :: dst.Contains(p) ==> dst.At(p) == Pull(src, sx, sy, p)
  {
    Image(src.width, src.height,
          seq(src.height, y => seq(src.width, x => Pull(src, sx, sy, Point(x, y)))))
  }

  /** Two valid images of one size with the same pixels are the same image. */
  lemma SameImage(a: Image, b: Image)
    requires a.Valid() && b.Valid() && a.width == b.width && a.height == b.height
    requires forall p :: a.Contains(p) ==> a.At(p) == b.At(p)
    ensures a == b
  {
    forall y | 0 <= y < a.height
      ensures a.rows[y] == b.rows[y]
    {
      forall x | 0 <= x < a.width
        ensures a.rows[y][x] == b.rows[y][x]
      {
        assert a.Contains(Point(x, y));
      }
    }
  }

  /** The image with one pixel replaced. */
  function Put(img: Image, p: Point, px: Rgba): (out: Image)
    requires img.Valid() && img.Contains(p)
    ensures out.Valid() && out.width == img.width && out.height == img.height
    ensures out.At(p) == px
    ensures forall q :: out.Contains(q) && q != p ==> out.At(q) == img.At(q)
  {
    Image(img.width, img.height, img.rows[p.y := img.rows[p.y][p.x := px]])
  }

  /** Whether the copy loop, now at `cursor`, has already written the pixel that lands on `p`. */
  ghost predicate Moved(src: Image, sx: int, sy: int, p: Point, cursor: Point)
    requires src.Valid()
  {
    var q := Origin(p, sx, sy);
    src.Contains(q) && Opaque(src.At(q)) && RasterBefore(q, cursor)
  }

  /** The destination after the copy loop has visited every source pixel before `cursor`. */
  ghost predicate Partial(src: Image, sx: int, sy: int, dst: Image, cursor: Point)
    requires src.Valid()
  {
    && dst.Valid() && dst.width == src.width && dst.height == src.height
    && forall p :: dst.Contains(p) ==>
         dst.At(p) == if Moved(src, sx, sy, p, cursor) then src.At(Origin(p, sx, sy)) else Transparent
  }

  /** Visiting the source pixel at the cursor keeps `Partial`, one position further on. */
  lemma VisitKeepsPartial(src: Image, sx: int, sy: int, dst: Image, x: int, y: int, dst': Image)
    requires src.Valid() && src.Contains(Point(x, y))
    requires Partial(src, sx, sy, dst, Point(x, y))
    requires var px, t := src.At(Point(x, y)), Target(Point(x, y), sx, sy);
             if Opaque(px) && dst.Contains(t) then dst.Valid() && dst' == Put(dst, t, px) else dst' == dst
    ensures Partial(src, sx, sy, dst', Point(x + 1, y))
  {
    var t := Target(Point(x, y), sx, sy);
    forall p | dst'.Contains(p)
      ensures dst'.At(p) ==
              if Moved(src, sx, sy, p, Point(x + 1, y)) then src.At(Origin(p, sx, sy)) else Transparent
    {
      if p == t {
        assert Origin(p, sx, sy) == Point(x, y);
      } else {
        assert dst.Contains(p);
        assert Origin(p, sx, sy) != Point(x, y);
      }
    }
  }

  /** Finishing a row: the cursor past its last column is the cursor at the next row's start. */
  lemma RowDone(src: Image, sx: int, sy: int, dst: Image, y: int)
    requires src.Valid() && Partial(src, sx, sy, dst, Point(src.width, y))
    ensures Partial(src, sx, sy, dst, Point(0, y + 1))
  {
    forall p | dst.Contains(p)
      ensures Moved(src, sx, sy, p, Point(src.width, y)) <==> Moved(src, sx, sy, p, Point(0, y + 1))
    {
    }
  }

  /** Nothing copied yet: the blank canvas. */
  lemma StartPartial(src: Image, sx: int, sy: int)
    requires src.Valid()
    ensures Partial(src, sx, sy, Blank(src.width, src.height), Point(0, 0))
  {
  }

  /** Every row visited: the destination is the reference frame. */
  lemma EndPartial(src: Image, sx: int, sy: int, dst: Image)
    requires src.Valid() && Partial(src, sx, sy, dst, Point(0, src.height))
    ensures dst == Shifted(src, sx, sy)
  {
    var ref := Shifted(src, sx, sy);
    forall p | dst.Contains(p)
      ensures dst.At(p) == ref.At(p)
    {
    }
    SameImage(dst, ref);
  }

  /** The inner loop of the copy: one source row, left to right. */
  method TranslateRow(src: Image, sx: int, sy: int, dst0: Image, y: int) returns (dst: Image)
    requires src.Valid() && 0 <= y < src.height
    requires Partial(src, sx, sy, dst0, Point(0, y))
    ensures Partial(src, sx, sy, dst, Point(0, y + 1))
  {
    dst := dst0;
    var x := 0;
    while x < src.width
      invariant 0 <= x <= src.width
      invariant Partial(src, sx, sy, dst, Point(x, y))
    {
      var px := src.At(Point(x, y));
      var dst' := dst;
      if px.a >= OpaqueAlpha {
        var newX, newY := x + sx, y + sy;
        if 0 <= newX < src.width && 0 <= newY < src.height {
          dst' := Put(dst, Point(newX, newY), px);
        }
      }
      VisitKeepsPartial(src, sx, sy, dst, x, y, dst');
      dst := dst';
      x := x + 1;
    }
    RowDone(src, sx, sy, dst, y);
  }

  /**
   * The copy loop of `renderPredictedFrame`: starting from a transparent canvas, every opaque
   * source pixel is written at its shifted position when that is on the image. The result is
   * the reference frame `Shifted`.
   */
  method Translate(src: Image, sx: int, sy: int) returns (dst: Image)
    requires src.Valid()
    ensures dst == Shifted(src, sx, sy)
  {
    dst := Blank(src.width, src.height);
    StartPartial(src, sx, sy);
    var y := 0;
    while y < src.height
      invariant 0 <= y <= src.height
      invariant Partial(src, sx, sy, dst, Point(0, y))
    {
      dst := TranslateRow(src, sx, sy, dst, y);
      y := y + 1;
    }
    EndPartial(src, sx, sy, dst);
  }

  /**
   * What the copy promises per source pixel: an opaque pixel reappears unchanged at its target
   * when that is on the image; every destination pixel is either transparent or an opaque pixel
   * of the source, so nothing faint is ever written.
   */
  lemma ShiftedMovesOpaquePixels(src: Image, sx: int, sy: int)
    requires src.Valid()
    ensures var dst := Shifted(src, sx, sy);
            forall q :: src.Contains(q) && Opaque(src.At(q)) && dst.Contains(Target(q, sx, sy)) ==>
              dst.At(Target(q, sx, sy)) == src.At(q)
    ensures var dst := Shifted(src, sx, sy);
            forall p :: dst.Contains(p) ==> dst.At(p) == Transparent || Opaque(dst.At(p))
  {
    var dst := Shifted(src, sx, sy);
    forall q | src.Contains(q) && Opaque(src.At(q)) && dst.Contains(Target(q, sx, sy))
      ensures dst.At(Target(q, sx, sy)) == src.At(q)
    {
      assert Origin(Target(q, sx, sy), sx, sy) == q;
    }
  }

  /** The opaque positions of an image. */
  ghost function OpaqueSet(img: Image): set<Point>
    requires img.Valid()
  {
    set p | p in img.Points() && Opaque(img.At(p))
  }

  /** The opaque source positions whose target is on the image. */
  ghost function KeptSet(src: Image, sx: int, sy: int): set<Point>
    requires src.Valid()
  {
    set q | q in OpaqueSet(src) && src.Contains(Target(q, sx, sy))
  }

  ghost function Translated(s: set<Point>, sx: int, sy: int): set<Point>
  {
    set q | q in s :: Target(q, sx, sy)
  }

  /** Translation is injective, so it keeps the size of a set. */
  lemma {:induction false} TranslatedCard(s: set<Point>, sx: int, sy: int)
    ensures |Translated(s, sx, sy)| == |s|
    decreases |s|
  {
    if s != {} {
      var q :| q in s;
      var rest := s - {q};
      TranslatedCard(rest, sx, sy);
      assert Translated(s, sx, sy) == Translated(rest, sx, sy) + {Target(q, sx, sy)};
      assert Target(q, sx, sy) !in Translated(rest, sx, sy);
    } else {
      assert Translated(s, sx, sy) == {};
    }
  }

  /**
   * The opaque pixels of the predicted frame are exactly the kept source pixels moved, so there
   * are as many as the opaque source pixels whose target is on the image, and no more than the
   * opaque source pixels.
   */
  lemma OpaqueCount(src: Image, sx: int, sy: int)
    requires src.Valid()
    ensures OpaqueSet(Shifted(src, sx, sy)) == Translated(KeptSet(src, sx, sy), sx, sy)
    ensures |OpaqueSet(Shifted(src, sx, sy))| == |KeptSet(src, sx, sy)| <= |OpaqueSet(src)|
  {
    var dst := Shifted(src, sx, sy);
    var kept := KeptSet(src, sx, sy);
    forall p
      ensures p in OpaqueSet(dst) <==> p in Translated(kept, sx, sy)
    {
      OpaqueAt(src, sx, sy, p);
    }
    TranslatedCard(kept, sx, sy);
    var all := OpaqueSet(src);
    assert all == kept + (all - kept);
    assert |all| == |kept| + |all - kept|;
  }

  /** One pixel of the predicted frame is opaque exactly when it is a kept source pixel moved. */
  lemma OpaqueAt(src: Image, sx: int, sy: int, p: Point)
    requires src.Valid()
    ensures p in OpaqueSet(Shifted(src, sx, sy)) <==> p in Translated(KeptSet(src, sx, sy), sx, sy)
  {
    var q := Origin(p, sx, sy);
    assert Target(q, sx, sy) == p;
    if p in Translated(KeptSet(src, sx, sy), sx, sy) {
      var q' :| q' in KeptSet(src, sx, sy) && Target(q', sx, sy) == p;
      assert q' == q;
    }
  }

  /**
   * The frame's confidence: `100 - 0.6 * minutesAhead`, floored at 20, rounded. The floor takes
   * over from 133⅓ minutes on; within [20, 100] for any horizon from now on.
   */
  function FrameConfidence(minutesAhead: real): (c: int)
    ensures c >= 20
    ensures minutesAhead >= 0.0 ==> c <= 100
    ensures minutesAhead <= 400.0 / 3.0 ==> c == Round(100.0 - minutesAhead * 0.6)
    ensures minutesAhead >= 400.0 / 3.0 ==> c == 20
  {
    Round(MaxReal(20.0, 100.0 - minutesAhead * 0.6))
  }

  /** Confidence never rises with the horizon. */
  lemma ConfidenceNonIncreasing(m1: real, m2: real)
    requires m1 <= m2
    ensures FrameConfidence(m1) >= FrameConfidence(m2)
  {
    var a, b := MaxReal(20.0, 100.0 - m1 * 0.6), MaxReal(20.0, 100.0 - m2 * 0.6);
    assert a >= b;
  }

  datatype PredictedFrame = PredictedFrame(minutesAhead: real, image: Image, confidence: int)

  /**
   * `renderPredictedFrame`, before the blur: the frame shifted by the velocity scaled to
   * `minutesAhead`, with its confidence.
   */
  method RenderPredictedFrame(src: Image, velocity: MotionTracker.Velocity, minutesAhead: real,
                              frameInterval: real) returns (f: PredictedFrame)
    requires src.Valid() && frameInterval != 0.0
    ensures f.minutesAhead == minutesAhead
    ensures f.image == Shifted(src, Shift(velocity.vx, minutesAhead, frameInterval),
                               Shift(velocity.vy, minutesAhead, frameInterval))
    ensures f.confidence == FrameConfidence(minutesAhead)
    ensures 20 <= f.confidence <= 100 || minutesAhead < 0.0
  {
    var framesAhead := minutesAhead / frameInterval;
    var shiftX := Round(velocity.vx * framesAhead);
    var shiftY := Round(velocity.vy * framesAhead);
    assert shiftX == Shift(velocity.vx, minutesAhead, frameInterval);
    assert shiftY == Shift(velocity.vy, minutesAhead, frameInterval);
    var image := Translate(src, shiftX, shiftY);
    f := PredictedFrame(minutesAhead, image, FrameConfidence(minutesAhead));
  }

  /**
   * How many horizons `k * interval` lie in (0, maxMinutes]. None when even the first horizon is
   * past the maximum, whatever the sign of the interval.
   */
  function HorizonCount(maxMinutes: real, interval: real): (n: nat)
    requires interval > 0.0 || maxMinutes < interval
    ensures n as real * interval <= maxMinutes || n == 0
    ensures maxMinutes < (n + 1) as real * interval
  {
    if maxMinutes < interval then 0
    else
      var n := (maxMinutes / interval).Floor;
      assert n as real <= maxMinutes / interval;
      HorizonBelow(n as real, maxMinutes, interval);
      n
  }

  lemma HorizonBelow(k: real, maxMinutes: real, interval: real)
    requires interval > 0.0 && k <= maxMinutes / interval < k + 1.0
    ensures k * interval <= maxMinutes
    ensures maxMinutes < (k + 1.0) * interval
  {
    var r := maxMinutes / interval;
    assert maxMinutes == r * interval;
    assert k * interval <= maxMinutes by { MotionTracker.MulMonotone(k, r, interval); }
    assert maxMinutes < (k + 1.0) * interval by { MulStrict(r, k + 1.0, interval); }
  }

  lemma MulStrict(a: real, b: real, w: real)
    requires a < b && w > 0.0
    ensures a * w < b * w
  {
    PositiveProduct(b - a, w);
    assert b * w - a * w == (b - a) * w;
  }

  /** The default horizons, every ten minutes up to two hours, give twelve frames. */
  lemma DefaultHorizonCount()
    ensures HorizonCount(120.0, 10.0) == 12
  {
    assert (120.0 / 10.0).Floor == 12;
  }

  /** The `k`-th generated frame (from zero): the render at horizon `(k + 1) * interval`. */
  ghost predicate FrameAt(src: Image, velocity: MotionTracker.Velocity, interval: real, f: PredictedFrame, k: nat)
    requires src.Valid()
  {
    && f.minutesAhead == (k + 1) as real * interval
    && f.image == Shifted(src, Shift(velocity.vx, f.minutesAhead, DefaultFrameInterval),
                          Shift(velocity.vy, f.minutesAhead, DefaultFrameInterval))
    && f.confidence == FrameConfidence(f.minutesAhead)
  }

  /**
   * `generatePredictedFrames`: one rendered frame per horizon `interval, 2 * interval, ...` up to
   * `maxMinutes`, in increasing order, each with the default frame interval. When the first
   * horizon is already past `maxMinutes` the loop test fails at once and there are no frames.
   */
  method GeneratePredictedFrames(src: Image, velocity: MotionTracker.Velocity, maxMinutes: real,
                                 interval: real) returns (frames: seq<PredictedFrame>)
    requires src.Valid() && (interval > 0.0 || maxMinutes < interval)
    ensures |frames| == HorizonCount(maxMinutes, interval)
    ensures forall k :: 0 <= k < |frames| ==> FrameAt(src, velocity, interval, frames[k], k)
    ensures forall k :: 0 <= k < |frames| ==> frames[k].minutesAhead <= maxMinutes
    ensures maxMinutes < interval ==> frames == []
  {
    frames := [];
    if maxMinutes < interval {
      return;
    }
    var mins := interval;
    ghost var count := HorizonCount(maxMinutes, interval);
    while mins <= maxMinutes
      invariant mins == (|frames| + 1) as real * interval
      invariant |frames| <= count
      invariant |frames| as real * interval <= maxMinutes || |frames| == 0
      invariant forall k :: 0 <= k < |frames| ==> FrameAt(src, velocity, interval, frames[k], k)
      invariant forall k :: 0 <= k < |frames| ==> frames[k].minutesAhead <= maxMinutes
      decreases count - |frames|
    {
      CountBound(|frames| + 1, maxMinutes, interval);
      var frame := RenderPredictedFrame(src, velocity, mins, DefaultFrameInterval);
      assert FrameAt(src, velocity, interval, frame, |frames|);
      frames := frames + [frame];
      NextHorizon(|frames|, interval);
      mins := mins + interval;
    }
    CountMatches(|frames|, maxMinutes, interval);
  }

  lemma NextHorizon(n: nat, interval: real)
    ensures n as real * interval + interval == (n + 1) as real * interval
  {
  }

  /** A horizon within `maxMinutes` is within the count. */
  lemma CountBound(n: nat, maxMinutes: real, interval: real)
    requires interval > 0.0 && n as real * interval <= maxMinutes
    ensures n <= HorizonCount(maxMinutes, interval)
  {
    var m := HorizonCount(maxMinutes, interval);
    MulCancel(n as real, (m + 1) as real, interval);
  }

  /** A positive factor can be cancelled from a strict inequality. */
  lemma MulCancel(a: real, b: real, w: real)
    requires w > 0.0 && a * w < b * w
    ensures a < b
  {
    if b <= a {
      MotionTracker.MulMonotone(b, a, w);
    }
  }

  /** The loop's exit count is the horizon count. */
  lemma CountMatches(n: nat, maxMinutes: real, interval: real)
    requires interval > 0.0
    requires n as real * interval <= maxMinutes || n == 0
    requires maxMinutes < (n + 1) as real * interval
    ensures n == HorizonCount(maxMinutes, interval)
  {
    var m := HorizonCount(maxMinutes, interval);
    UniqueCount(n, m, maxMinutes, interval);
  }

  /** At most one count `n` has `n * interval <= maxMinutes < (n + 1) * interval`. */
  lemma UniqueCount(n: nat, m: nat, maxMinutes: real, interval: real)
    requires interval > 0.0
    requires n as real * interval <= maxMinutes || n == 0
    requires maxMinutes < (n + 1) as real * interval
    requires m as real * interval <= maxMinutes || m == 0
    requires maxMinutes < (m + 1) as real * interval
    ensures n == m
  {
    if n < m {
      MotionTracker.MulMonotone((n + 1) as real, m as real, interval);
    } else if n > m {
      MotionTracker.MulMonotone((m + 1) as real, n as real, interval);
    }
  }
}
