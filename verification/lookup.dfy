/**
 * The two searches the lookup tables share: the first entry satisfying a test (`Array.find`) and
 * the nearest entry to a point by straight-line distance over latitude and longitude, with the
 * earliest entry winning ties because the loop replaces its best only on a strictly smaller
 * distance.
 */
module Lookup {
  import opened Wrappers
  import opened JsMath

  /** `Array.find` as an index: the first position whose entry passes `test`. */
  function FindFirst<T>(s: seq<T>, test: T -> bool): (i: Option<nat>)
    ensures i.Some? ==> i.value < |s| && test(s[i.value])
    ensures i.Some? ==> forall j :: 0 <= j < i.value ==> !test(s[j])
    ensures i.None? <==> forall j :: 0 <= j < |s| ==> !test(s[j])
  {
    if |s| == 0 then None
    else if test(s[0]) then Some(0)
    else
      var rest := FindFirst(s[1..], test);
      assert forall j :: 1 <= j < |s| ==> s[j] == s[1..][j - 1];
      match rest
      case None => None
      case Some(k) => Some(k + 1)
  }

  /** A latitude and longitude in degrees. */
  datatype Coord = Coord(lat: real, lng: real)

  /**
   * The squared straight-line distance in degrees. The source compares square roots of this;
   * since the square root is strictly increasing (`SquaredOrderAgrees`) the comparisons agree.
   */
  function SqDist(a: Coord, b: Coord): (d: real)
    ensures d >= 0.0
  {
    var dLat, dLng := a.lat - b.lat, a.lng - b.lng;
    RealSquareNonNegative(dLat);
    RealSquareNonNegative(dLng);
    dLat * dLat + dLng * dLng
  }

  /** `at` is nearest to `places[i]`, and strictly nearer to it than to every earlier place. */
  ghost predicate EarliestNearest(places: seq<Coord>, at: Coord, i: nat)
  {
    && i < |places|
    && (forall j :: 0 <= j < |places| ==> SqDist(at, places[i]) <= SqDist(at, places[j]))
    && (forall j :: 0 <= j < i ==> SqDist(at, places[j]) > SqDist(at, places[i]))
  }

  /**
   * The nearest-place loop: starting from "no best yet, infinite distance", a place replaces the
   * best only when strictly nearer. Nothing for an empty list; otherwise the earliest of the
   * nearest places.
   */
  method Nearest(places: seq<Coord>, at: Coord) returns (best: Option<nat>)
    ensures best.None? <==> |places| == 0
    ensures best.Some? ==> EarliestNearest(places, at, best.value)
  {
    best := None;
    var minDistance: Option<real> := None;
    var k := 0;
    while k < |places|
      invariant 0 <= k <= |places|
      invariant best.None? <==> k == 0
      invariant minDistance.None? <==> k == 0
      invariant best.Some? ==> best.value < k && minDistance == Some(SqDist(at, places[best.value]))
      invariant best.Some? ==> forall j :: 0 <= j < k ==> SqDist(at, places[best.value]) <= SqDist(at, places[j])
      invariant best.Some? ==> forall j :: 0 <= j < best.value ==> SqDist(at, places[j]) > SqDist(at, places[best.value])
    {
      var distance := SqDist(at, places[k]);
      if minDistance.None? || distance < minDistance.value {
        minDistance := Some(distance);
        best := Some(k);
      }
      k := k + 1;
    }
  }

  /** At most one index is the earliest nearest. */
  lemma EarliestNearestUnique(places: seq<Coord>, at: Coord, i: nat, j: nat)
    requires EarliestNearest(places, at, i) && EarliestNearest(places, at, j)
    ensures i == j
  {
    assert SqDist(at, places[i]) == SqDist(at, places[j]);
  }

  /**
   * For a host whose `sqrt` is the square root, comparing distances is comparing squared
   * distances: the model's loops choose what the source's choose.
   */
  lemma SquaredOrderAgrees(h: Host, a: real, b: real)
    requires h.SqrtLaws() && 0.0 <= a && 0.0 <= b
    ensures h.sqrt(a) < h.sqrt(b) <==> a < b
  {
    if a < b {
      SqrtStrictlyIncreasing(h, a, b);
    } else if b < a {
      SqrtStrictlyIncreasing(h, b, a);
    }
  }
}
