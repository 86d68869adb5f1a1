/**
 * Greedy nearest-neighbour matching of rain cells between two frames (`matchCells`,
 * lib/radar/motion-tracker.ts). Previous cells are taken in order; each takes the still unused
 * current cell of least score (centroid distance plus half the intensity difference), if that
 * score is below the maximum distance. The source's `Map` is kept as its entries in insertion
 * order, which is increasing previous index.
 */
module CellMatcher {
  import opened JsMath
  import opened CellExtractor

  /** The default `maxDistance` of `matchCells`. */
  const DefaultMaxDistance: real := 100.0

  /** One entry of the match map: `prev` index to `curr` index. */
  datatype Pair = Pair(prev: nat, curr: nat)

  /** How far apart two cells are for matching purposes. */
  function Score(h: Host, p: RainCell, c: RainCell): real
  {
    var dx, dy := c.x - p.x, c.y - p.y;
    h.sqrt(dx * dx + dy * dy) + AbsReal(c.intensity - p.intensity) * 0.5
  }

  /** Current cell `k` may still be chosen. */
  predicate Open(curr: seq<RainCell>, used: set<nat>, k: int)
  {
    0 <= k < |curr| && k !in used
  }

  /**
   * `r` is the choice for previous cell `p`: the open candidate of least score, the lowest index
   * among equal scores, provided its score is below `maxDistance`; -1 when no open candidate
   * scores below `maxDistance`.
   */
  ghost predicate IsBest(h: Host, p: RainCell, curr: seq<RainCell>, used: set<nat>,
                         maxDistance: real, r: int)
  {
    if r < 0 then
      r == -1 && forall k :: Open(curr, used, k) ==> Score(h, p, curr[k]) >= maxDistance
    else
      && Open(curr, used, r)
      && Score(h, p, curr[r]) < maxDistance
      && (forall k :: Open(curr, used, k) && k < r ==> Score(h, p, curr[k]) > Score(h, p, curr[r]))
      && (forall k :: Open(curr, used, k) && k > r ==> Score(h, p, curr[k]) >= Score(h, p, curr[r]))
  }

  /** The inner loop after candidates `0..j` have been looked at. */
  ghost predicate Scanned(h: Host, p: RainCell, curr: seq<RainCell>, used: set<nat>,
                          maxDistance: real, j: nat, best: int, bestDist: real)
  {
    if best < 0 then
      && best == -1 && bestDist == maxDistance
      && forall k :: Open(curr, used, k) && k < j ==> Score(h, p, curr[k]) >= maxDistance
    else
      && best < j && Open(curr, used, best)
      && bestDist == Score(h, p, curr[best]) && bestDist < maxDistance
      && (forall k :: Open(curr, used, k) && k < best ==> Score(h, p, curr[k]) > bestDist)
      && (forall k :: Open(curr, used, k) && best < k < j ==> Score(h, p, curr[k]) >= bestDist)
  }

  /** The inner `for j` loop from candidate `j` on, with the running best so far. */
  function BestFrom(h: Host, p: RainCell, curr: seq<RainCell>, used: set<nat>, maxDistance: real,
                    j: nat, best: int, bestDist: real): (r: int)
    requires j <= |curr| && Scanned(h, p, curr, used, maxDistance, j, best, bestDist)
    ensures IsBest(h, p, curr, used, maxDistance, r)
    decreases |curr| - j
  {
    if j == |curr| then best
    else if j in used then BestFrom(h, p, curr, used, maxDistance, j + 1, best, bestDist)
    else
      var s := Score(h, p, curr[j]);
      if s < bestDist then BestFrom(h, p, curr, used, maxDistance, j + 1, j, s)
      else BestFrom(h, p, curr, used, maxDistance, j + 1, best, bestDist)
  }

  /** The choice for previous cell `p`, or -1. */
  function Best(h: Host, p: RainCell, curr: seq<RainCell>, used: set<nat>, maxDistance: real)
    : (r: int)
    ensures IsBest(h, p, curr, used, maxDistance, r)
  {
    BestFrom(h, p, curr, used, maxDistance, 0, -1, maxDistance)
  }

  /** The choice is determined: at most one index satisfies `IsBest`. */
  lemma IsBestUnique(h: Host, p: RainCell, curr: seq<RainCell>, used: set<nat>, maxDistance: real,
                     r1: int, r2: int)
    requires IsBest(h, p, curr, used, maxDistance, r1)
    requires IsBest(h, p, curr, used, maxDistance, r2)
    ensures r1 == r2
  {
  }

  /** The outer `for i` loop from previous cell `i` on, with the current cells `used` so far. */
  function MatchFrom(h: Host, prev: seq<RainCell>, curr: seq<RainCell>, maxDistance: real, i: nat,
                     used: set<nat>): (m: seq<Pair>)
    requires i <= |prev|
    ensures forall k :: 0 <= k < |m| ==> i <= m[k].prev < |prev| && Open(curr, used, m[k].curr)
    ensures forall k, l :: 0 <= k < l < |m| ==> m[k].prev < m[l].prev && m[k].curr != m[l].curr
    decreases |prev| - i
  {
    if i == |prev| then []
    else
      var b := Best(h, prev[i], curr, used, maxDistance);
      if b >= 0 then [Pair(i, b)] + MatchFrom(h, prev, curr, maxDistance, i + 1, used + {b})
      else MatchFrom(h, prev, curr, maxDistance, i + 1, used)
  }

  /**
   * `matchCells`: the matches in insertion order. Keys increase, so no previous cell is matched
   * twice; no current cell is used twice; every index is in range.
   */
  function MatchCells(h: Host, prev: seq<RainCell>, curr: seq<RainCell>, maxDistance: real)
    : (m: seq<Pair>)
    ensures forall k :: 0 <= k < |m| ==> m[k].prev < |prev| && m[k].curr < |curr|
    ensures forall k, l :: 0 <= k < l < |m| ==> m[k].prev < m[l].prev
    ensures forall k, l :: 0 <= k < l < |m| ==> m[k].curr != m[l].curr
  {
    MatchFrom(h, prev, curr, maxDistance, 0, {})
  }

  /** The current cells taken by the matches of previous cells before `i`. */
  ghost function UsedBefore(m: seq<Pair>, i: int): set<nat>
  {
    set k | 0 <= k < |m| && m[k].prev < i :: m[k].curr
  }

  ghost predicate Matched(m: seq<Pair>, i: int)
  {
    exists k :: 0 <= k < |m| && m[k].prev == i
  }

  /**
   * The matching is the greedy one: every entry is the choice for its previous cell given the
   * current cells taken before it, and every unmatched previous cell had no acceptable open
   * candidate at its turn.
   */
  ghost predicate Greedy(h: Host, prev: seq<RainCell>, curr: seq<RainCell>, maxDistance: real,
                         used: set<nat>, i: nat, m: seq<Pair>)
    requires i <= |prev|
  {
    && (forall k :: 0 <= k < |m| && m[k].prev < |prev| ==>
          IsBest(h, prev[m[k].prev], curr, used + UsedBefore(m, m[k].prev), maxDistance, m[k].curr))
    && (forall j :: i <= j < |prev| && !Matched(m, j) ==>
          IsBest(h, prev[j], curr, used + UsedBefore(m, j), maxDistance, -1))
  }

  lemma UsedBeforeStart(m: seq<Pair>, i: int)
    requires forall k :: 0 <= k < |m| ==> i <= m[k].prev
    ensures UsedBefore(m, i) == {}
  {
  }

  lemma UsedBeforeCons(m: seq<Pair>, i: nat, b: nat, rest: seq<Pair>, j: int)
    requires m == [Pair(i, b)] + rest && i < j
    ensures UsedBefore(m, j) == {b} + UsedBefore(rest, j)
  {
    assert forall k :: 0 <= k < |rest| ==> rest[k] == m[k + 1];
    forall x | x in UsedBefore(m, j)
      ensures x == b || x in UsedBefore(rest, j)
    {
      var k :| 0 <= k < |m| && m[k].prev < j && m[k].curr == x;
      if k > 0 {
        assert rest[k - 1] == m[k];
      }
    }
    assert m[0].prev < j && m[0].curr == b;
  }

  /** Prepending the choice for previous cell `i` keeps the matching greedy. */
  lemma GreedyCons(h: Host, prev: seq<RainCell>, curr: seq<RainCell>, maxDistance: real, i: nat,
                   used: set<nat>, b: nat, rest: seq<Pair>)
    requires i < |prev| && IsBest(h, prev[i], curr, used, maxDistance, b)
    requires forall k :: 0 <= k < |rest| ==> i < rest[k].prev
    requires Greedy(h, prev, curr, maxDistance, used + {b}, i + 1, rest)
    ensures Greedy(h, prev, curr, maxDistance, used, i, [Pair(i, b)] + rest)
  {
    GreedyConsEntries(h, prev, curr, maxDistance, i, used, b, rest);
    GreedyConsGaps(h, prev, curr, maxDistance, i, used, b, rest);
  }

  lemma GreedyConsEntries(h: Host, prev: seq<RainCell>, curr: seq<RainCell>, maxDistance: real,
                          i: nat, used: set<nat>, b: nat, rest: seq<Pair>)
    requires i < |prev| && IsBest(h, prev[i], curr, used, maxDistance, b)
    requires forall k :: 0 <= k < |rest| ==> i < rest[k].prev
    requires forall k :: 0 <= k < |rest| && rest[k].prev < |prev| ==>
               IsBest(h, prev[rest[k].prev], curr, used + {b} + UsedBefore(rest, rest[k].prev),
                      maxDistance, rest[k].curr)
    ensures var m := [Pair(i, b)] + rest;
            forall k :: 0 <= k < |m| && m[k].prev < |prev| ==>
              IsBest(h, prev[m[k].prev], curr, used + UsedBefore(m, m[k].prev), maxDistance, m[k].curr)
  {
    var m := [Pair(i, b)] + rest;
    forall k | 0 <= k < |m| && m[k].prev < |prev|
      ensures IsBest(h, prev[m[k].prev], curr, used + UsedBefore(m, m[k].prev), maxDistance,
                     m[k].curr)
    {
      if k == 0 {
        UsedBeforeStart(m, i);
        assert used + UsedBefore(m, i) == used;
      } else {
        assert m[k] == rest[k - 1];
        UsedBeforeCons(m, i, b, rest, m[k].prev);
        assert used + UsedBefore(m, m[k].prev) == used + {b} + UsedBefore(rest, m[k].prev);
      }
    }
  }

  lemma GreedyConsGaps(h: Host, prev: seq<RainCell>, curr: seq<RainCell>, maxDistance: real,
                       i: nat, used: set<nat>, b: nat, rest: seq<Pair>)
    requires i < |prev|
    requires forall j :: i + 1 <= j < |prev| && !Matched(rest, j) ==>
               IsBest(h, prev[j], curr, used + {b} + UsedBefore(rest, j), maxDistance, -1)
    ensures var m := [Pair(i, b)] + rest;
            forall j :: i <= j < |prev| && !Matched(m, j) ==>
              IsBest(h, prev[j], curr, used + UsedBefore(m, j), maxDistance, -1)
  {
    var m := [Pair(i, b)] + rest;
    assert m[0].prev == i;
    forall j | i <= j < |prev| && !Matched(m, j)
      ensures IsBest(h, prev[j], curr, used + UsedBefore(m, j), maxDistance, -1)
    {
      if j > i {
        UsedBeforeCons(m, i, b, rest, j);
        assert used + UsedBefore(m, j) == used + {b} + UsedBefore(rest, j);
        assert forall k :: 0 <= k < |rest| ==> rest[k] == m[k + 1];
      }
    }
  }

  /** Skipping previous cell `i`, which has no acceptable candidate, keeps the matching greedy. */
  lemma GreedySkip(h: Host, prev: seq<RainCell>, curr: seq<RainCell>, maxDistance: real, i: nat,
                   used: set<nat>, rest: seq<Pair>)
    requires i < |prev| && IsBest(h, prev[i], curr, used, maxDistance, -1)
    requires forall k :: 0 <= k < |rest| ==> i < rest[k].prev
    requires Greedy(h, prev, curr, maxDistance, used, i + 1, rest)
    ensures Greedy(h, prev, curr, maxDistance, used, i, rest)
  {
    UsedBeforeStart(rest, i);
    assert used + UsedBefore(rest, i) == used;
  }

  lemma {:induction false} MatchFromGreedy(h: Host, prev: seq<RainCell>, curr: seq<RainCell>,
                                           maxDistance: real, i: nat, used: set<nat>)
    requires i <= |prev|
    ensures Greedy(h, prev, curr, maxDistance, used, i, MatchFrom(h, prev, curr, maxDistance, i, used))
    decreases |prev| - i
  {
    if i < |prev| {
      var b := Best(h, prev[i], curr, used, maxDistance);
      if b >= 0 {
        MatchFromGreedy(h, prev, curr, maxDistance, i + 1, used + {b});
        GreedyCons(h, prev, curr, maxDistance, i, used, b,
                   MatchFrom(h, prev, curr, maxDistance, i + 1, used + {b}));
      } else {
        MatchFromGreedy(h, prev, curr, maxDistance, i + 1, used);
        GreedySkip(h, prev, curr, maxDistance, i, used,
                   MatchFrom(h, prev, curr, maxDistance, i + 1, used));
      }
    }
  }

  /** `matchCells` is the greedy matching from nothing used. */
  lemma MatchCellsGreedy(h: Host, prev: seq<RainCell>, curr: seq<RainCell>, maxDistance: real)
    ensures Greedy(h, prev, curr, maxDistance, {}, 0, MatchCells(h, prev, curr, maxDistance))
  {
    MatchFromGreedy(h, prev, curr, maxDistance, 0, {});
  }
}
