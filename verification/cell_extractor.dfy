/**
 * Rain-cell extraction of the full-field tracker (`findRainCells`, lib/radar/motion-tracker.ts):
 * a raster-order scan that starts a 4-connected flood fill, driven by an explicit stack and a
 * visited set, at every rain pixel not yet visited, and reports each component of more than 50
 * pixels as a cell (centroid, mean intensity score, area).
 */
module CellExtractor {
  import opened Raster
  import MotionPixels

  datatype RainCell = RainCell(x: real, y: real, intensity: real, area: nat)

  /** A component must have MORE than this many pixels to be reported. */
  const MinCellArea: nat := 50

  /** An in-bounds pixel the full-field classifier calls rain. */
  predicate IsRainAt(img: Image, p: Point)
    requires img.Valid()
  {
    img.Contains(p) && var px := img.At(p); MotionPixels.IsRainPixel(px.r, px.g, px.b, px.a)
  }

  /**
   * The inner `while (stack.length > 0)` loop: pop the top position; skip it when it is visited,
   * out of bounds or not rain; otherwise mark it visited, record it as a member and push its
   * four neighbours.
   */
  function FloodFill(img: Image, stack: seq<Point>, visited: set<Point>, members: seq<Point>)
    : (res: (seq<Point>, set<Point>))
    requires img.Valid() && visited <= img.Points()
    ensures visited <= res.1 <= img.Points()
    decreases img.Points() - visited, |stack|
  {
    if |stack| == 0 then (members, visited)
    else
      var c := stack[|stack| - 1];
      var rest := stack[..|stack| - 1];
      if c in visited || !IsRainAt(img, c) then FloodFill(img, rest, visited, members)
      else FloodFill(img, rest + Neighbours(c), visited + {c}, members + [c])
  }

  /**
   * The outer `for y / for x` scan from position (x, y) on: every unvisited rain pixel seeds a
   * flood fill. Returns every component found, in the order found, small ones included.
   */
  function ScanFrom(img: Image, x: nat, y: nat, visited: set<Point>, comps: seq<seq<Point>>)
    : seq<seq<Point>>
    requires img.Valid() && visited <= img.Points()
    requires x <= img.width && y <= img.height
    decreases img.height - y, img.width - x
  {
    if y == img.height then comps
    else if x == img.width then ScanFrom(img, 0, y + 1, visited, comps)
    else
      var p := Point(x, y);
      if p in visited || !IsRainAt(img, p) then ScanFrom(img, x + 1, y, visited, comps)
      else
        var (members, visited') := FloodFill(img, [p], visited, []);
        ScanFrom(img, x + 1, y, visited', comps + [members])
  }

  /** All 4-connected rain components of a frame, in raster order of their first pixel. */
  function Components(img: Image): seq<seq<Point>>
    requires img.Valid()
  {
    ScanFrom(img, 0, 0, {}, [])
  }

  // ---------------------------------------------------------------------------------------
  // Summaries of a component

  ghost predicate AllIn(img: Image, ps: seq<Point>)
  {
    forall i :: 0 <= i < |ps| ==> img.Contains(ps[i])
  }

  /** The sum of the per-pixel intensity scores of the members. */
  function SumScore(img: Image, ps: seq<Point>): int
    requires img.Valid() && AllIn(img, ps)
  {
    if |ps| == 0 then 0
    else
      var px := img.At(ps[|ps| - 1]);
      SumScore(img, ps[..|ps| - 1]) + MotionPixels.RainIntensity(px.r, px.g, px.b)
  }

  /** The cell reported for a component: centroid, mean score and pixel count. */
  function Summarize(img: Image, comp: seq<Point>): RainCell
    requires img.Valid() && AllIn(img, comp) && |comp| > 0
  {
    var n := |comp| as real;
    RainCell(SumX(comp) as real / n, SumY(comp) as real / n, SumScore(img, comp) as real / n, |comp|)
  }

  /** Keeps the components of more than `MinCellArea` pixels and summarizes them, in order. */
  function BigCells(img: Image, comps: seq<seq<Point>>): seq<RainCell>
    requires img.Valid() && forall k :: 0 <= k < |comps| ==> AllIn(img, comps[k])
  {
    if |comps| == 0 then []
    else
      var init := BigCells(img, comps[..|comps| - 1]);
      var last := comps[|comps| - 1];
      if |last| > MinCellArea then init + [Summarize(img, last)] else init
  }

  // ---------------------------------------------------------------------------------------
  // What a flood fill produces

  ghost function Elems(s: seq<Point>): set<Point>
  {
    set p | p in s
  }

  ghost predicate Distinct(s: seq<Point>)
  {
    forall i, j :: 0 <= i < j < |s| ==> s[i] != s[j]
  }

  ghost predicate AllRain(img: Image, ps: set<Point>)
    requires img.Valid()
  {
    forall p :: p in ps ==> IsRainAt(img, p)
  }

  /**
   * Every member after the first touches an earlier member, so the visit order is a spanning
   * tree and the members form one 4-connected region.
   */
  ghost predicate GrowsConnected(s: seq<Point>)
    decreases |s|
  {
    |s| <= 1 || (GrowsConnected(s[..|s| - 1]) && Touches(s[..|s| - 1], s[|s| - 1]))
  }

  /** Every rain pixel adjacent to a pixel of `s` lies in `t`. */
  ghost predicate RainNeighboursIn(img: Image, s: set<Point>, t: set<Point>)
    requires img.Valid()
  {
    forall p, q :: p in s && Adjacent(p, q) && IsRainAt(img, q) ==> q in t
  }

  /** The rain neighbours of members are visited or still waiting on the stack. */
  ghost predicate Frontier(img: Image, members: seq<Point>, visited: set<Point>, stack: seq<Point>)
    requires img.Valid()
  {
    forall p, q :: p in Elems(members) && Adjacent(p, q) && IsRainAt(img, q) ==>
      q in visited || q in stack
  }

  /** `q` is adjacent to some member. */
  ghost predicate Touches(members: seq<Point>, q: Point)
  {
    exists j :: 0 <= j < |members| && Adjacent(members[j], q)
  }

  /** Before the first member the stack holds at most the seed; afterwards every entry touches a member. */
  ghost predicate StackTouches(members: seq<Point>, stack: seq<Point>)
  {
    if |members| == 0 then |stack| <= 1
    else forall i :: 0 <= i < |stack| ==> Touches(members, stack[i])
  }

  /**
   * The flood-fill loop invariant. `before` is the visited set when the fill started; the
   * members are exactly the pixels visited since, each rain and visited once.
   */
  ghost predicate FillInv(img: Image, stack: seq<Point>, visited: set<Point>, members: seq<Point>,
                          before: set<Point>)
    requires img.Valid()
  {
    && before <= visited
    && visited - before == Elems(members)
    && Distinct(members)
    && AllRain(img, Elems(members))
    && GrowsConnected(members)
    && Frontier(img, members, visited, stack)
    && StackTouches(members, stack)
  }

  /** The flood fill keeps its invariant and only ever extends the member list. */
  lemma {:induction false} FloodFillSound(img: Image, stack: seq<Point>, visited: set<Point>,
                                          members: seq<Point>, before: set<Point>)
    requires img.Valid() && visited <= img.Points()
    requires FillInv(img, stack, visited, members, before)
    ensures var res := FloodFill(img, stack, visited, members);
            members <= res.0 && FillInv(img, [], res.1, res.0, before)
    decreases img.Points() - visited, |stack|
  {
    if |stack| > 0 {
      var c := stack[|stack| - 1];
      var rest := stack[..|stack| - 1];
      if c in visited || !IsRainAt(img, c) {
        SkipKeepsInv(img, stack, visited, members, before);
        FloodFillSound(img, rest, visited, members, before);
      } else {
        AddKeepsInv(img, stack, visited, members, before);
        FloodFillSound(img, rest + Neighbours(c), visited + {c}, members + [c], before);
      }
    }
  }

  /** Popping a visited, out-of-bounds or dry position keeps the invariant. */
  lemma SkipKeepsInv(img: Image, stack: seq<Point>, visited: set<Point>, members: seq<Point>,
                     before: set<Point>)
    requires img.Valid()
    requires FillInv(img, stack, visited, members, before)
    requires |stack| > 0
    requires stack[|stack| - 1] in visited || !IsRainAt(img, stack[|stack| - 1])
    ensures FillInv(img, stack[..|stack| - 1], visited, members, before)
  {
    var c, rest := stack[|stack| - 1], stack[..|stack| - 1];
    assert forall q :: q in stack ==> q in rest || q == c;
    if |members| > 0 {
      forall i | 0 <= i < |rest|
        ensures Touches(members, rest[i])
      {
        assert rest[i] == stack[i];
      }
    }
  }

  /** Visiting a new rain position keeps the invariant. */
  lemma AddKeepsInv(img: Image, stack: seq<Point>, visited: set<Point>, members: seq<Point>,
                    before: set<Point>)
    requires img.Valid()
    requires FillInv(img, stack, visited, members, before)
    requires |stack| > 0
    requires stack[|stack| - 1] !in visited && IsRainAt(img, stack[|stack| - 1])
    ensures var c := stack[|stack| - 1];
            FillInv(img, stack[..|stack| - 1] + Neighbours(c), visited + {c}, members + [c], before)
  {
    var c, rest := stack[|stack| - 1], stack[..|stack| - 1];
    var members' := members + [c];
    assert Elems(members') == Elems(members) + {c};
    assert Distinct(members');
    AddKeepsConnected(stack, members);
    AddKeepsFrontier(img, stack, visited, members);
    AddKeepsTouching(stack, members);
  }

  lemma AddKeepsConnected(stack: seq<Point>, members: seq<Point>)
    requires |stack| > 0 && GrowsConnected(members) && StackTouches(members, stack)
    ensures GrowsConnected(members + [stack[|stack| - 1]])
  {
    var members' := members + [stack[|stack| - 1]];
    assert members'[..|members|] == members;
  }

  lemma AddKeepsFrontier(img: Image, stack: seq<Point>, visited: set<Point>, members: seq<Point>)
    requires img.Valid() && |stack| > 0
    requires Frontier(img, members, visited, stack)
    ensures var c := stack[|stack| - 1];
            Frontier(img, members + [c], visited + {c}, stack[..|stack| - 1] + Neighbours(c))
  {
    var c, rest := stack[|stack| - 1], stack[..|stack| - 1];
    assert forall q :: q in stack ==> q in rest || q == c;
    assert Elems(members + [c]) == Elems(members) + {c};
  }

  lemma AddKeepsTouching(stack: seq<Point>, members: seq<Point>)
    requires |stack| > 0 && StackTouches(members, stack)
    ensures var c := stack[|stack| - 1];
            StackTouches(members + [c], stack[..|stack| - 1] + Neighbours(c))
  {
    var c, rest := stack[|stack| - 1], stack[..|stack| - 1];
    var stack', members' := rest + Neighbours(c), members + [c];
    forall i | 0 <= i < |stack'|
      ensures Touches(members', stack'[i])
    {
      if i < |rest| {
        assert |members| > 0 && Touches(members, stack[i]);
        var j :| 0 <= j < |members| && Adjacent(members[j], stack[i]);
        assert members'[j] == members[j] && stack'[i] == stack[i];
      } else {
        assert Adjacent(members'[|members|], stack'[i]);
      }
    }
  }
}
