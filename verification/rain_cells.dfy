/**
 * What the raster scan of `findRainCells` (lib/radar/motion-tracker.ts) produces: the components
 * partition the rain pixels of the frame into disjoint, 4-connected, closed regions, found in
 * raster order of their first pixel; the cells reported are the components of more than 50
 * pixels.
 */
module RainCells {
  import opened Raster
  import MotionPixels
  import opened CellExtractor
  import opened JsMath

  /** The union of the member sets of the components found so far. */
  ghost function Covered(comps: seq<seq<Point>>): set<Point>
  {
    if |comps| == 0 then {} else Covered(comps[..|comps| - 1]) + Elems(comps[|comps| - 1])
  }

  lemma {:induction false} CoveredMember(comps: seq<seq<Point>>, q: Point)
    ensures q in Covered(comps) <==> exists k :: 0 <= k < |comps| && q in comps[k]
    decreases |comps|
  {
    if |comps| > 0 {
      var init := comps[..|comps| - 1];
      CoveredMember(init, q);
      if q in Covered(init) {
        var k :| 0 <= k < |init| && q in init[k];
        assert comps[k] == init[k];
      }
      if exists k :: 0 <= k < |comps| && q in comps[k] {
        var k :| 0 <= k < |comps| && q in comps[k];
        if k < |init| {
          assert init[k] == comps[k];
        }
      }
    }
  }

  /** A connected component as the scan records it: the seed first, then the fill order. */
  ghost predicate IsComponent(img: Image, c: seq<Point>)
    requires img.Valid()
  {
    && |c| > 0
    && Distinct(c)
    && AllRain(img, Elems(c))
    && GrowsConnected(c)
    && RainNeighboursIn(img, Elems(c), Elems(c))
    && forall i :: 0 < i < |c| ==> RasterBefore(c[0], c[i])
  }

  /** The components found before scan position `at`. */
  ghost predicate Found(img: Image, comps: seq<seq<Point>>, at: Point)
    requires img.Valid()
  {
    && (forall k :: 0 <= k < |comps| ==> IsComponent(img, comps[k]))
    && (forall k, l :: 0 <= k < l < |comps| ==> Elems(comps[k]) !! Elems(comps[l]))
    && (forall k, l :: 0 <= k < l < |comps| ==> RasterBefore(comps[k][0], comps[l][0]))
    && (forall k :: 0 <= k < |comps| ==> RasterBefore(comps[k][0], at))
    && (forall q :: IsRainAt(img, q) && RasterBefore(q, at) ==> q in Covered(comps))
  }

  /** A scan that has only ever visited what it recorded. */
  ghost predicate ScanInv(img: Image, x: nat, y: nat, visited: set<Point>, comps: seq<seq<Point>>)
    requires img.Valid()
  {
    visited == Covered(comps) && Found(img, comps, Point(x, y))
  }

  /** The scan invariant holds to the end of the raster. */
  lemma {:induction false} ScanSound(img: Image, x: nat, y: nat, visited: set<Point>,
                                     comps: seq<seq<Point>>)
    requires img.Valid() && visited <= img.Points()
    requires x <= img.width && y <= img.height
    requires ScanInv(img, x, y, visited, comps)
    ensures Found(img, ScanFrom(img, x, y, visited, comps), Point(0, img.height))
    decreases img.height - y, img.width - x, 1
  {
    if y == img.height {
      assert Point(x, y) == Point(0, img.height) || RasterBefore(Point(0, img.height), Point(x, y));
    } else if x == img.width {
      ScanNextRow(img, y, visited, comps);
    } else if Point(x, y) in visited || !IsRainAt(img, Point(x, y)) {
      ScanSkip(img, x, y, visited, comps);
    } else {
      ScanNewComponent(img, x, y, visited, comps);
    }
  }

  /** The scan step at the end of a row. */
  lemma {:induction false} ScanNextRow(img: Image, y: nat, visited: set<Point>, comps: seq<seq<Point>>)
    requires img.Valid() && visited <= img.Points() && y < img.height
    requires ScanInv(img, img.width, y, visited, comps)
    ensures Found(img, ScanFrom(img, img.width, y, visited, comps), Point(0, img.height))
    decreases img.height - y, 0, 0
  {
    NextRowKeepsInv(img, y, visited, comps);
    assert ScanFrom(img, img.width, y, visited, comps) == ScanFrom(img, 0, y + 1, visited, comps);
    ScanSound(img, 0, y + 1, visited, comps);
  }

  /** The scan step over a pixel that is dry or already in a component. */
  lemma {:induction false} ScanSkip(img: Image, x: nat, y: nat, visited: set<Point>, comps: seq<seq<Point>>)
    requires img.Valid() && visited <= img.Points() && x < img.width && y < img.height
    requires ScanInv(img, x, y, visited, comps)
    requires Point(x, y) in visited || !IsRainAt(img, Point(x, y))
    ensures Found(img, ScanFrom(img, x, y, visited, comps), Point(0, img.height))
    decreases img.height - y, img.width - x, 0
  {
    SkipKeepsScanInv(img, x, y, visited, comps);
    assert ScanFrom(img, x, y, visited, comps) == ScanFrom(img, x + 1, y, visited, comps);
    ScanSound(img, x + 1, y, visited, comps);
  }

  /** The scan step that seeds a new component at an unvisited rain pixel. */
  lemma {:induction false} ScanNewComponent(img: Image, x: nat, y: nat, visited: set<Point>,
                                            comps: seq<seq<Point>>)
    requires img.Valid() && visited <= img.Points() && x < img.width && y < img.height
    requires ScanInv(img, x, y, visited, comps)
    requires Point(x, y) !in visited && IsRainAt(img, Point(x, y))
    ensures Found(img, ScanFrom(img, x, y, visited, comps), Point(0, img.height))
    decreases img.height - y, img.width - x, 0
  {
    var res := FloodFill(img, [Point(x, y)], visited, []);
    NewComponentKeepsInv(img, x, y, visited, comps);
    assert ScanFrom(img, x, y, visited, comps) == ScanFrom(img, x + 1, y, res.1, comps + [res.0]);
    ScanSound(img, x + 1, y, res.1, comps + [res.0]);
  }

  lemma NextRowKeepsInv(img: Image, y: nat, visited: set<Point>, comps: seq<seq<Point>>)
    requires img.Valid() && y < img.height
    requires ScanInv(img, img.width, y, visited, comps)
    ensures ScanInv(img, 0, y + 1, visited, comps)
  {
    forall q | IsRainAt(img, q) && RasterBefore(q, Point(0, y + 1))
      ensures q in Covered(comps)
    {
      assert RasterBefore(q, Point(img.width, y));
    }
  }

  lemma SkipKeepsScanInv(img: Image, x: nat, y: nat, visited: set<Point>, comps: seq<seq<Point>>)
    requires img.Valid() && x < img.width && y < img.height
    requires ScanInv(img, x, y, visited, comps)
    requires Point(x, y) in visited || !IsRainAt(img, Point(x, y))
    ensures ScanInv(img, x + 1, y, visited, comps)
  {
    forall q | IsRainAt(img, q) && RasterBefore(q, Point(x + 1, y))
      ensures q in Covered(comps)
    {
      assert q == Point(x, y) || RasterBefore(q, Point(x, y));
    }
  }

  /** The state one step into the fill started at a new seed `p`. */
  lemma SeedFillInv(img: Image, p: Point, visited: set<Point>)
    requires img.Valid() && p !in visited && IsRainAt(img, p)
    ensures FillInv(img, Neighbours(p), visited + {p}, [p], visited)
  {
    assert Elems([p]) == {p};
    assert forall i :: 0 <= i < |Neighbours(p)| ==> Adjacent([p][0], Neighbours(p)[i]);
  }

  /** The fill from seed `p` yields a component starting with `p` and only new pixels. */
  lemma SeedFill(img: Image, p: Point, visited: set<Point>)
    requires img.Valid() && visited <= img.Points()
    requires p !in visited && IsRainAt(img, p)
    ensures var res := FloodFill(img, [p], visited, []);
            && |res.0| > 0 && res.0[0] == p
            && FillInv(img, [], res.1, res.0, visited)
  {
    var stack: seq<Point> := [p];
    var none: seq<Point> := [];
    assert stack[|stack| - 1] == p && stack[..|stack| - 1] + Neighbours(p) == Neighbours(p);
    assert none + [p] == [p];
    assert FloodFill(img, [p], visited, []) == FloodFill(img, Neighbours(p), visited + {p}, [p]);
    SeedFillInv(img, p, visited);
    FloodFillSound(img, Neighbours(p), visited + {p}, [p], visited);
  }

  /** A rain pixel next to a recorded component belongs to that component too. */
  lemma CoveredClosed(img: Image, comps: seq<seq<Point>>, m: Point, q: Point)
    requires img.Valid()
    requires forall k :: 0 <= k < |comps| ==> IsComponent(img, comps[k])
    requires Adjacent(m, q) && IsRainAt(img, m)
    ensures q in Covered(comps) ==> m in Covered(comps)
  {
    if q in Covered(comps) {
      CoveredMember(comps, q);
      var k :| 0 <= k < |comps| && q in comps[k];
      AdjacentSymmetric(m, q);
      CoveredMember(comps, m);
    }
  }

  lemma NewComponentKeepsInv(img: Image, x: nat, y: nat, visited: set<Point>,
                             comps: seq<seq<Point>>)
    requires img.Valid() && visited <= img.Points() && x < img.width && y < img.height
    requires ScanInv(img, x, y, visited, comps)
    requires Point(x, y) !in visited && IsRainAt(img, Point(x, y))
    ensures var res := FloodFill(img, [Point(x, y)], visited, []);
            ScanInv(img, x + 1, y, res.1, comps + [res.0])
  {
    var p := Point(x, y);
    var (c, visited') := FloodFill(img, [p], visited, []);
    SeedFill(img, p, visited);
    var comps' := comps + [c];
    assert comps'[..|comps|] == comps;
    assert Covered(comps') == visited';

    // closed: a rain neighbour of a new member cannot lie in an earlier component
    forall m, q | m in Elems(c) && Adjacent(m, q) && IsRainAt(img, q)
      ensures q in Elems(c)
    {
      CoveredClosed(img, comps, m, q);
    }
    // the seed is the raster-first member: every earlier rain pixel was visited already
    forall i | 0 < i < |c|
      ensures RasterBefore(c[0], c[i])
    {
      assert c[i] in Elems(c) && c[i] != c[0];
      assert !RasterBefore(c[i], p);
    }
    assert IsComponent(img, c);
    forall k | 0 <= k < |comps|
      ensures Elems(comps[k]) !! Elems(c)
    {
      forall q | q in Elems(comps[k])
        ensures q !in Elems(c)
      {
        CoveredMember(comps, q);
      }
    }
    forall q | IsRainAt(img, q) && RasterBefore(q, Point(x + 1, y))
      ensures q in Covered(comps')
    {
      assert q == p || RasterBefore(q, p);
    }
  }

  /**
   * The scan's components partition the rain pixels of the frame: each is a closed, 4-connected
   * set of rain pixels visited once; no two share a pixel; their first pixels come in raster
   * order; and every rain pixel belongs to one of them.
   */
  lemma ComponentsPartition(img: Image)
    requires img.Valid()
    ensures var cs := Components(img);
            && (forall k :: 0 <= k < |cs| ==> IsComponent(img, cs[k]))
            && (forall k, l :: 0 <= k < l < |cs| ==> Elems(cs[k]) !! Elems(cs[l]))
            && (forall k, l :: 0 <= k < l < |cs| ==> RasterBefore(cs[k][0], cs[l][0]))
            && (forall q :: IsRainAt(img, q) <==> exists k :: 0 <= k < |cs| && q in cs[k])
  {
    assert Covered([]) == {};
    ScanSound(img, 0, 0, {}, []);
    var cs := Components(img);
    forall q
      ensures IsRainAt(img, q) <==> exists k :: 0 <= k < |cs| && q in cs[k]
    {
      CoveredMember(cs, q);
      if exists k :: 0 <= k < |cs| && q in cs[k] {
        var k :| 0 <= k < |cs| && q in cs[k];
        assert q in Elems(cs[k]);
      }
    }
  }

  // ---------------------------------------------------------------------------------------
  // Areas

  /** The total number of members over all components. */
  function TotalLength(comps: seq<seq<Point>>): nat
  {
    if |comps| == 0 then 0 else TotalLength(comps[..|comps| - 1]) + |comps[|comps| - 1]|
  }

  lemma {:induction false} DistinctCard(s: seq<Point>)
    requires Distinct(s)
    ensures |Elems(s)| == |s|
  {
    if |s| > 0 {
      var init := s[..|s| - 1];
      DistinctCard(init);
      assert Elems(s) == Elems(init) + {s[|s| - 1]};
      assert s[|s| - 1] !in Elems(init);
    } else {
      assert Elems(s) == {};
    }
  }

  /** Pairwise disjoint, duplicate-free components cover exactly as many pixels as they list. */
  lemma {:induction false} CoveredCard(comps: seq<seq<Point>>)
    requires forall k :: 0 <= k < |comps| ==> Distinct(comps[k])
    requires forall k, l :: 0 <= k < l < |comps| ==> Elems(comps[k]) !! Elems(comps[l])
    ensures |Covered(comps)| == TotalLength(comps)
  {
    if |comps| > 0 {
      var init, last := comps[..|comps| - 1], comps[|comps| - 1];
      assert forall k :: 0 <= k < |init| ==> init[k] == comps[k];
      CoveredCard(init);
      DistinctCard(last);
      forall q | q in Covered(init)
        ensures q !in Elems(last)
      {
        CoveredMember(init, q);
      }
      assert |Covered(init) + Elems(last)| == |Covered(init)| + |Elems(last)|;
    }
  }

  /** Components of rain pixels lie inside the frame. */
  lemma CoveredInside(img: Image, comps: seq<seq<Point>>)
    requires img.Valid() && forall k :: 0 <= k < |comps| ==> IsComponent(img, comps[k])
    ensures Covered(comps) <= img.Points()
  {
    forall q | q in Covered(comps)
      ensures q in img.Points()
    {
      CoveredMember(comps, q);
      var k :| 0 <= k < |comps| && q in comps[k];
      assert q in Elems(comps[k]);
    }
  }

  /** The components of a frame hold at most `width * height` pixels between them. */
  lemma ComponentsArea(img: Image)
    requires img.Valid()
    ensures TotalLength(Components(img)) <= img.width * img.height
  {
    var cs := Components(img);
    ComponentsPartition(img);
    CoveredCard(cs);
    CoveredInside(img, cs);
    PointsCard(img);
    SubsetCard(Covered(cs), img.Points());
  }

  lemma SubsetCard(a: set<Point>, b: set<Point>)
    requires a <= b
    ensures |a| <= |b|
  {
    assert b == a + (b - a);
  }

  // ---------------------------------------------------------------------------------------
  // Cells

  /** Every member of every component lies inside the frame. */
  lemma ComponentsInside(img: Image)
    requires img.Valid()
    ensures var cs := Components(img); forall k :: 0 <= k < |cs| ==> AllIn(img, cs[k])
  {
    ComponentsPartition(img);
    var cs := Components(img);
    forall k, i | 0 <= k < |cs| && 0 <= i < |cs[k]|
      ensures img.Contains(cs[k][i])
    {
      assert cs[k][i] in Elems(cs[k]);
    }
  }

  function TotalArea(cells: seq<RainCell>): nat
  {
    if |cells| == 0 then 0 else TotalArea(cells[..|cells| - 1]) + cells[|cells| - 1].area
  }

  /** The cell of a component: the centroid lies in the frame and the mean score in [50, 255]. */
  ghost predicate CellInFrame(img: Image, cell: RainCell)
  {
    && 0.0 <= cell.x <= (img.width - 1) as real
    && 0.0 <= cell.y <= (img.height - 1) as real
    && 50.0 <= cell.intensity <= 255.0
  }

  /** The rain cells of a frame: the components of more than 50 pixels, in scan order. */
  function FindRainCells(img: Image): (cells: seq<RainCell>)
    requires img.Valid()
    ensures forall k :: 0 <= k < |cells| ==> cells[k].area > MinCellArea
    ensures forall k :: 0 <= k < |cells| ==> CellInFrame(img, cells[k])
    ensures TotalArea(cells) <= img.width * img.height
  {
    ComponentsInside(img);
    var cs := Components(img);
    BigCellsLarge(img, cs);
    BigCellsInFrame(img, cs);
    BigCellsArea(img, cs);
    ComponentsArea(img);
    BigCells(img, cs)
  }

  /** Only components of more than 50 pixels become cells. */
  lemma {:induction false} BigCellsLarge(img: Image, comps: seq<seq<Point>>)
    requires img.Valid() && forall k :: 0 <= k < |comps| ==> AllIn(img, comps[k])
    ensures forall k :: 0 <= k < |BigCells(img, comps)| ==> BigCells(img, comps)[k].area > MinCellArea
  {
    if |comps| > 0 {
      var init, last := comps[..|comps| - 1], comps[|comps| - 1];
      BigCellsLarge(img, init);
      var before := BigCells(img, init);
      assert BigCells(img, comps) == if |last| > MinCellArea then before + [Summarize(img, last)] else before;
    }
  }

  /** Every cell's centroid lies in the frame and its mean score in [50, 255]. */
  lemma {:induction false} BigCellsInFrame(img: Image, comps: seq<seq<Point>>)
    requires img.Valid() && forall k :: 0 <= k < |comps| ==> AllIn(img, comps[k])
    ensures forall k :: 0 <= k < |BigCells(img, comps)| ==> CellInFrame(img, BigCells(img, comps)[k])
  {
    if |comps| > 0 {
      var init, last := comps[..|comps| - 1], comps[|comps| - 1];
      BigCellsInFrame(img, init);
      var before := BigCells(img, init);
      if |last| > MinCellArea {
        SummaryInFrame(img, last);
        assert BigCells(img, comps) == before + [Summarize(img, last)];
      } else {
        assert BigCells(img, comps) == before;
      }
    }
  }

  /** The cells cover no more pixels than the components do. */
  lemma {:induction false} BigCellsArea(img: Image, comps: seq<seq<Point>>)
    requires img.Valid() && forall k :: 0 <= k < |comps| ==> AllIn(img, comps[k])
    ensures TotalArea(BigCells(img, comps)) <= TotalLength(comps)
  {
    if |comps| > 0 {
      var init, last := comps[..|comps| - 1], comps[|comps| - 1];
      BigCellsArea(img, init);
      var before := BigCells(img, init);
      if |last| > MinCellArea {
        var cells := before + [Summarize(img, last)];
        assert BigCells(img, comps) == cells;
        assert cells[..|cells| - 1] == before;
      } else {
        assert BigCells(img, comps) == before;
      }
    }
  }

  /** `cell` is the summary of one of the components of more than 50 pixels. */
  ghost predicate SummarizesBig(img: Image, comps: seq<seq<Point>>, cell: RainCell)
    requires img.Valid() && forall k :: 0 <= k < |comps| ==> AllIn(img, comps[k])
  {
    exists j :: 0 <= j < |comps| && |comps[j]| > MinCellArea && cell == Summarize(img, comps[j])
  }

  ghost predicate Listed(cells: seq<RainCell>, cell: RainCell)
  {
    exists k :: 0 <= k < |cells| && cells[k] == cell
  }

  /**
   * The cells are exactly the summaries of the components of more than 50 pixels: each cell
   * summarizes such a component, and each such component is summarized by a cell.
   */
  lemma BigCellsExact(img: Image, comps: seq<seq<Point>>)
    requires img.Valid() && forall k :: 0 <= k < |comps| ==> AllIn(img, comps[k])
    ensures forall k :: 0 <= k < |BigCells(img, comps)| ==> SummarizesBig(img, comps, BigCells(img, comps)[k])
    ensures forall j :: 0 <= j < |comps| && |comps[j]| > MinCellArea ==> Listed(BigCells(img, comps), Summarize(img, comps[j]))
  {
    BigCellsFromBig(img, comps);
    BigCellsComplete(img, comps);
  }

  lemma {:induction false} BigCellsFromBig(img: Image, comps: seq<seq<Point>>)
    requires img.Valid() && forall k :: 0 <= k < |comps| ==> AllIn(img, comps[k])
    ensures forall k :: 0 <= k < |BigCells(img, comps)| ==> SummarizesBig(img, comps, BigCells(img, comps)[k])
  {
    if |comps| > 0 {
      var init, last := comps[..|comps| - 1], comps[|comps| - 1];
      assert forall k :: 0 <= k < |init| ==> init[k] == comps[k];
      BigCellsFromBig(img, init);
      var before := BigCells(img, init);
      var cells := BigCells(img, comps);
      assert cells == if |last| > MinCellArea then before + [Summarize(img, last)] else before;
      forall k | 0 <= k < |cells|
        ensures SummarizesBig(img, comps, cells[k])
      {
        if k < |before| {
          assert SummarizesBig(img, init, before[k]);
          var j :| 0 <= j < |init| && |init[j]| > MinCellArea && before[k] == Summarize(img, init[j]);
          assert cells[k] == before[k] && comps[j] == init[j];
        } else {
          assert cells[k] == Summarize(img, comps[|init|]);
        }
      }
    }
  }

  lemma {:induction false} BigCellsComplete(img: Image, comps: seq<seq<Point>>)
    requires img.Valid() && forall k :: 0 <= k < |comps| ==> AllIn(img, comps[k])
    ensures forall j :: 0 <= j < |comps| && |comps[j]| > MinCellArea ==> Listed(BigCells(img, comps), Summarize(img, comps[j]))
  {
    if |comps| > 0 {
      var init, last := comps[..|comps| - 1], comps[|comps| - 1];
      assert forall k :: 0 <= k < |init| ==> init[k] == comps[k];
      BigCellsComplete(img, init);
      var before := BigCells(img, init);
      var cells := BigCells(img, comps);
      assert cells == if |last| > MinCellArea then before + [Summarize(img, last)] else before;
      forall j | 0 <= j < |comps| && |comps[j]| > MinCellArea
        ensures Listed(cells, Summarize(img, comps[j]))
      {
        if j < |init| {
          assert Listed(before, Summarize(img, init[j]));
          var k :| 0 <= k < |before| && before[k] == Summarize(img, init[j]);
          assert cells[k] == before[k];
        } else {
          assert cells[|before|] == Summarize(img, comps[j]);
        }
      }
    }
  }

  lemma SummaryInFrame(img: Image, comp: seq<Point>)
    requires img.Valid() && AllIn(img, comp) && |comp| > 0
    ensures CellInFrame(img, Summarize(img, comp))
  {
    var n := |comp|;
    SumBounds(img, comp);
    MeanBounds(SumX(comp), n, 0, img.width - 1);
    MeanBounds(SumY(comp), n, 0, img.height - 1);
    MeanBounds(SumScore(img, comp), n, 50, 255);
  }

  /** Coordinates and scores summed over in-frame members. */
  lemma {:induction false} SumBounds(img: Image, ps: seq<Point>)
    requires img.Valid() && AllIn(img, ps)
    ensures 0 <= SumX(ps) <= (img.width - 1) * |ps|
    ensures 0 <= SumY(ps) <= (img.height - 1) * |ps|
    ensures 50 * |ps| <= SumScore(img, ps) <= 255 * |ps|
  {
    if |ps| > 0 {
      var init := ps[..|ps| - 1];
      assert AllIn(img, init) by {
        assert forall i :: 0 <= i < |init| ==> init[i] == ps[i];
      }
      SumBounds(img, init);
      assert (img.width - 1) * (|ps| - 1) + (img.width - 1) == (img.width - 1) * |ps|;
      assert (img.height - 1) * (|ps| - 1) + (img.height - 1) == (img.height - 1) * |ps|;
    }
  }
}
