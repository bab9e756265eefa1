/**
 * The rectangle packing of `image_to_svg_simple` (app.py), stated on values.
 *
 * The bitmap is the flat, row-major pixel list `list(img.getdata())` of a
 * mode "1" image of `width` x `height` pixels: 0 is black (foreground),
 * anything else is white. A rectangle is the `(x, y, width, height)` tuple
 * written into each `<rect .../>` element.
 *
 * `IsGreedyPacking` characterises the packer's output step by step; the
 * lemmas of this module derive from it the properties the packer promises:
 * bounds, disjointness, exact coverage of the foreground, row-major order,
 * determinism, the area sum, and the two small scenarios.
 */
module Packing {

  datatype Rect = Rect(x: nat, y: nat, width: nat, height: nat)

  /** Row-major index arithmetic: a pixel inside the bitmap has an index inside the pixel list. */
  lemma IndexInGrid(width: nat, height: nat, px: nat, py: nat)
    requires px < width && py < height
    ensures py * width + px < width * height
  {
    calc {
      py * width + px;
    <
      py * width + width;
    ==
      (py + 1) * width;
    <=  { assert py + 1 <= height; }
      height * width;
    }
  }

  /** Pixel (px, py) lies inside the bitmap and is black. */
  predicate IsFg(pixels: seq<int>, width: nat, height: nat, px: int, py: int)
    requires |pixels| == width * height
  {
    && 0 <= px < width && 0 <= py < height
    && (IndexInGrid(width, height, px, py); pixels[py * width + px] == 0)
  }

  /** Inside the bitmap, being black is the value test at the flat index. */
  lemma IsFgAt(pixels: seq<int>, width: nat, height: nat, px: nat, py: nat)
    requires |pixels| == width * height && px < width && py < height
    ensures py * width + px < |pixels|
    ensures IsFg(pixels, width, height, px, py) <==> pixels[py * width + px] == 0
  {
    IndexInGrid(width, height, px, py);
  }

  predicate InRect(r: Rect, px: int, py: int)
  {
    r.x <= px < r.x + r.width && r.y <= py < r.y + r.height
  }

  /** Some rectangle of `rects` contains pixel (px, py). */
  ghost predicate Covered(rects: seq<Rect>, px: int, py: int)
  {
    exists i :: 0 <= i < |rects| && InRect(rects[i], px, py)
  }

  /** (px, py) comes strictly before (qx, qy) in row-major scan order. */
  predicate Before(px: int, py: int, qx: int, qy: int)
  {
    py < qy || (py == qy && px < qx)
  }

  /** A non-empty rectangle that fits inside the bitmap. */
  predicate InBitmap(r: Rect, width: nat, height: nat)
  {
    1 <= r.width && 1 <= r.height && r.x + r.width <= width && r.y + r.height <= height
  }

  /**
   * `r` is the rectangle the scan emits next once the rectangles `done` have
   * been emitted (and marked processed).
   */
  ghost predicate GreedyStep(pixels: seq<int>, width: nat, height: nat, done: seq<Rect>, r: Rect)
    requires |pixels| == width * height
  {
    && InBitmap(r, width, height)
    // the corner is a black pixel not yet processed ...
    && IsFg(pixels, width, height, r.x, r.y) && !Covered(done, r.x, r.y)
    // ... and the first such pixel in row-major order
    && (forall px, py :: IsFg(pixels, width, height, px, py) && Before(px, py, r.x, r.y) ==> Covered(done, px, py))
    // every pixel of the rectangle is black and was not processed before
    && (forall px, py :: InRect(r, px, py) ==> IsFg(pixels, width, height, px, py) && !Covered(done, px, py))
    // the width stops at the right edge, a white pixel or a processed one
    && (r.x + r.width == width
        || !IsFg(pixels, width, height, r.x + r.width, r.y)
        || Covered(done, r.x + r.width, r.y))
    // the height stops at the bottom edge or at the first row below holding a white or processed pixel
    && (r.y + r.height == height || !RowFree(pixels, width, height, done, r.x, r.width, r.y + r.height))
  }

  /** The `w` pixels of row `row` from column x on could all join a rectangle growing after `done`. */
  ghost predicate RowFree(pixels: seq<int>, width: nat, height: nat, done: seq<Rect>, x: int, w: int, row: int)
    requires |pixels| == width * height
  {
    forall px :: x <= px < x + w ==> !Blocked(pixels, width, height, done, px, row)
  }

  /** Pixel (px, py) cannot join a rectangle growing after `done`: outside, white, or processed. */
  ghost predicate Blocked(pixels: seq<int>, width: nat, height: nat, done: seq<Rect>, px: int, py: int)
    requires |pixels| == width * height
  {
    !IsFg(pixels, width, height, px, py) || Covered(done, px, py)
  }

  /** Every rectangle is the greedy step after its predecessors. */
  ghost predicate GreedySteps(pixels: seq<int>, width: nat, height: nat, rects: seq<Rect>)
    requires |pixels| == width * height
  {
    forall k {:trigger rects[..k]} :: 0 <= k < |rects| ==> GreedyStep(pixels, width, height, rects[..k], rects[k])
  }

  /** `rects` is the complete output of the scan: greedy steps until no black pixel is left uncovered. */
  ghost predicate IsGreedyPacking(pixels: seq<int>, width: nat, height: nat, rects: seq<Rect>)
    requires |pixels| == width * height
  {
    && GreedySteps(pixels, width, height, rects)
    && (forall px, py :: IsFg(pixels, width, height, px, py) ==> Covered(rects, px, py))
  }

  ghost predicate Disjoint(a: Rect, b: Rect)
  {
    forall px, py :: InRect(a, px, py) ==> !InRect(b, px, py)
  }

  ghost predicate PairwiseDisjoint(rects: seq<Rect>)
  {
    forall i, j :: 0 <= i < j < |rects| ==> Disjoint(rects[i], rects[j])
  }

  /** Row-major order of the top-left corners, strictly increasing. */
  predicate ScanOrdered(rects: seq<Rect>)
  {
    forall i, j :: 0 <= i < j < |rects| ==> Before(rects[i].x, rects[i].y, rects[j].x, rects[j].y)
  }

  // ---------------------------------------------------------------------------
  // Facts about Covered

  lemma CoveredAppend(rects: seq<Rect>, r: Rect, px: int, py: int)
    ensures Covered(rects + [r], px, py) <==> Covered(rects, px, py) || InRect(r, px, py)
  {
    var all := rects + [r];
    if Covered(all, px, py) {
      var i :| 0 <= i < |all| && InRect(all[i], px, py);
      if i < |rects| {
        assert InRect(rects[i], px, py);
      }
    }
    if Covered(rects, px, py) {
      var i :| 0 <= i < |rects| && InRect(rects[i], px, py);
      assert InRect(all[i], px, py);
    }
    if InRect(r, px, py) {
      assert InRect(all[|rects|], px, py);
    }
  }

  lemma CoveredAppendAll(rects: seq<Rect>, r: Rect)
    ensures forall px, py :: Covered(rects + [r], px, py) <==> Covered(rects, px, py) || InRect(r, px, py)
  {
    forall px, py
      ensures Covered(rects + [r], px, py) <==> Covered(rects, px, py) || InRect(r, px, py)
    {
      CoveredAppend(rects, r, px, py);
    }
  }

  /** Emitting the next greedy rectangle keeps the sequence greedy. */
  lemma GreedyStepsAppend(pixels: seq<int>, width: nat, height: nat, rects: seq<Rect>, r: Rect)
    requires |pixels| == width * height
    requires GreedySteps(pixels, width, height, rects)
    requires GreedyStep(pixels, width, height, rects, r)
    ensures GreedySteps(pixels, width, height, rects + [r])
  {
    var all := rects + [r];
    forall k | 0 <= k < |all|
      ensures GreedyStep(pixels, width, height, all[..k], all[k])
    {
      if k < |rects| {
        assert all[..k] == rects[..k] && all[k] == rects[k];
      } else {
        assert all[..k] == rects;
      }
    }
  }

  // ---------------------------------------------------------------------------
  // Consequences of the greedy characterisation

  /** Every emitted rectangle is at least 1x1 and lies inside the bitmap. */
  lemma GreedyInBitmap(pixels: seq<int>, width: nat, height: nat, rects: seq<Rect>)
    requires |pixels| == width * height
    requires GreedySteps(pixels, width, height, rects)
    ensures forall i :: 0 <= i < |rects| ==> InBitmap(rects[i], width, height)
  {
    forall i | 0 <= i < |rects|
      ensures InBitmap(rects[i], width, height)
    {
      assert GreedyStep(pixels, width, height, rects[..i], rects[i]);
    }
  }

  /** Every pixel of every emitted rectangle is black. */
  lemma GreedyCellsForeground(pixels: seq<int>, width: nat, height: nat, rects: seq<Rect>, px: int, py: int)
    requires |pixels| == width * height
    requires GreedySteps(pixels, width, height, rects)
    requires Covered(rects, px, py)
    ensures IsFg(pixels, width, height, px, py)
  {
    var i :| 0 <= i < |rects| && InRect(rects[i], px, py);
    assert GreedyStep(pixels, width, height, rects[..i], rects[i]);
  }

  /** No two emitted rectangles share a pixel. */
  lemma GreedyDisjoint(pixels: seq<int>, width: nat, height: nat, rects: seq<Rect>)
    requires |pixels| == width * height
    requires GreedySteps(pixels, width, height, rects)
    ensures PairwiseDisjoint(rects)
  {
    forall i, j | 0 <= i < j < |rects|
      ensures Disjoint(rects[i], rects[j])
    {
      assert GreedyStep(pixels, width, height, rects[..j], rects[j]);
      forall px, py | InRect(rects[i], px, py)
        ensures !InRect(rects[j], px, py)
      {
        assert rects[..j][i] == rects[i];
        assert Covered(rects[..j], px, py);
      }
    }
  }

  /** The union of the rectangles is exactly the set of black pixels. */
  lemma GreedyExactCover(pixels: seq<int>, width: nat, height: nat, rects: seq<Rect>)
    requires |pixels| == width * height
    requires IsGreedyPacking(pixels, width, height, rects)
    ensures forall px, py :: Covered(rects, px, py) <==> IsFg(pixels, width, height, px, py)
  {
    forall px, py | Covered(rects, px, py)
      ensures IsFg(pixels, width, height, px, py)
    {
      GreedyCellsForeground(pixels, width, height, rects, px, py);
    }
  }

  /** Rectangles come out in strictly increasing row-major order of their top-left corners. */
  lemma GreedyScanOrdered(pixels: seq<int>, width: nat, height: nat, rects: seq<Rect>)
    requires |pixels| == width * height
    requires GreedySteps(pixels, width, height, rects)
    ensures ScanOrdered(rects)
  {
    forall i, j | 0 <= i < j < |rects|
      ensures Before(rects[i].x, rects[i].y, rects[j].x, rects[j].y)
    {
      var a, b := rects[i], rects[j];
      assert GreedyStep(pixels, width, height, rects[..i], a);
      assert GreedyStep(pixels, width, height, rects[..j], b);
      // b's corner is uncovered by rects[..j], hence by the shorter rects[..i]
      forall k | 0 <= k < i
        ensures !InRect(rects[..i][k], b.x, b.y)
      {
        assert !InRect(rects[..j][k], b.x, b.y);
        assert rects[..i][k] == rects[..j][k];
      }
      assert !Before(b.x, b.y, a.x, a.y);
      // and it is not a's corner, which rects[..j] covers
      assert InRect(rects[..j][i], a.x, a.y);
    }
  }

  /** Given what was emitted before, the next rectangle is determined. */
  lemma GreedyStepUnique(pixels: seq<int>, width: nat, height: nat, done: seq<Rect>, r1: Rect, r2: Rect)
    requires |pixels| == width * height
    requires GreedyStep(pixels, width, height, done, r1)
    requires GreedyStep(pixels, width, height, done, r2)
    ensures r1 == r2
  {
    // same corner: neither comes before the other
    assert !Before(r2.x, r2.y, r1.x, r1.y);
    assert !Before(r1.x, r1.y, r2.x, r2.y);
    // same width: a longer one would contain the pixel that stopped the shorter one
    assert r1.width < r2.width ==> InRect(r2, r1.x + r1.width, r1.y);
    assert r2.width < r1.width ==> InRect(r1, r2.x + r2.width, r2.y);
    // same height, likewise
    HeightNotShorter(pixels, width, height, done, r1, r2);
    HeightNotShorter(pixels, width, height, done, r2, r1);
  }

  lemma HeightNotShorter(pixels: seq<int>, width: nat, height: nat, done: seq<Rect>, r1: Rect, r2: Rect)
    requires |pixels| == width * height
    requires GreedyStep(pixels, width, height, done, r1)
    requires GreedyStep(pixels, width, height, done, r2)
    requires r1.x == r2.x && r1.y == r2.y && r1.width == r2.width
    ensures r2.height <= r1.height
  {
    if r1.y + r1.height < height {
      var px :| r1.x <= px < r1.x + r1.width && Blocked(pixels, width, height, done, px, r1.y + r1.height);
      assert r1.height < r2.height ==> InRect(r2, px, r1.y + r1.height);
    }
  }

  /** Once every black pixel is covered, no further greedy step exists. */
  lemma NoStepAfterPacking(pixels: seq<int>, width: nat, height: nat, rects: seq<Rect>)
    requires |pixels| == width * height
    requires IsGreedyPacking(pixels, width, height, rects)
    ensures forall r :: !GreedyStep(pixels, width, height, rects, r)
  {
  }

  lemma {:induction false} PrefixesAgree(pixels: seq<int>, width: nat, height: nat, s1: seq<Rect>, s2: seq<Rect>, k: nat)
    requires |pixels| == width * height
    requires GreedySteps(pixels, width, height, s1)
    requires GreedySteps(pixels, width, height, s2)
    requires k <= |s1| && k <= |s2|
    ensures s1[..k] == s2[..k]
  {
    if k > 0 {
      PrefixesAgree(pixels, width, height, s1, s2, k - 1);
      assert GreedyStep(pixels, width, height, s1[..k - 1], s1[k - 1]);
      assert GreedyStep(pixels, width, height, s2[..k - 1], s2[k - 1]);
      GreedyStepUnique(pixels, width, height, s1[..k - 1], s1[k - 1], s2[k - 1]);
      assert s1[..k] == s1[..k - 1] + [s1[k - 1]];
      assert s2[..k] == s2[..k - 1] + [s2[k - 1]];
    }
  }

  /** A packing cannot be continued: any greedy sequence that extends it is no longer. */
  lemma NotLonger(pixels: seq<int>, width: nat, height: nat, s1: seq<Rect>, s2: seq<Rect>)
    requires |pixels| == width * height
    requires IsGreedyPacking(pixels, width, height, s1)
    requires GreedySteps(pixels, width, height, s2)
    requires |s1| <= |s2| && s2[..|s1|] == s1
    ensures |s2| == |s1|
  {
    NoStepAfterPacking(pixels, width, height, s1);
  }

  /** The packing of a bitmap is unique: the scan is deterministic. */
  lemma GreedyDeterministic(pixels: seq<int>, width: nat, height: nat, s1: seq<Rect>, s2: seq<Rect>)
    requires |pixels| == width * height
    requires IsGreedyPacking(pixels, width, height, s1)
    requires IsGreedyPacking(pixels, width, height, s2)
    ensures s1 == s2
  {
    if |s1| <= |s2| {
      PrefixesAgree(pixels, width, height, s1, s2, |s1|);
      assert s1[..|s1|] == s1;
      NotLonger(pixels, width, height, s1, s2);
      assert s2[..|s2|] == s2;
    } else {
      PrefixesAgree(pixels, width, height, s1, s2, |s2|);
      assert s2[..|s2|] == s2;
      NotLonger(pixels, width, height, s2, s1);
    }
  }

  // ---------------------------------------------------------------------------
  // Areas: the rectangles' areas add up to the number of black pixels

  function Area(r: Rect): nat
  {
    r.width * r.height
  }

  function SumAreas(rects: seq<Rect>): nat
  {
    if rects == [] then 0 else SumAreas(rects[..|rects| - 1]) + Area(rects[|rects| - 1])
  }

  ghost function RowCells(x: int, y: int, width: nat): set<(int, int)>
  {
    set px | x <= px < x + width :: (px, y)
  }

  ghost function RectCells(r: Rect): set<(int, int)>
  {
    set px, py | r.x <= px < r.x + r.width && r.y <= py < r.y + r.height :: (px, py)
  }

  /** The pixels covered by some rectangle of `rects`. */
  ghost function CellsOf(rects: seq<Rect>): set<(int, int)>
  {
    if rects == [] then {} else CellsOf(rects[..|rects| - 1]) + RectCells(rects[|rects| - 1])
  }

  /** The black pixels of the bitmap. */
  ghost function FgCells(pixels: seq<int>, width: nat, height: nat): set<(int, int)>
    requires |pixels| == width * height
  {
    set px, py | 0 <= px < width && 0 <= py < height && IsFg(pixels, width, height, px, py) :: (px, py)
  }

  lemma {:induction false} RowCellsCard(x: int, y: int, width: nat)
    ensures |RowCells(x, y, width)| == width
  {
    if width > 0 {
      RowCellsCard(x, y, width - 1);
      assert RowCells(x, y, width) == RowCells(x, y, width - 1) + {(x + width - 1, y)};
    } else {
      assert RowCells(x, y, width) == {};
    }
  }

  lemma RectCellsMember(r: Rect)
    ensures forall p :: p in RectCells(r) <==> InRect(r, p.0, p.1)
  {
    forall p: (int, int) | InRect(r, p.0, p.1)
      ensures p in RectCells(r)
    {
      assert p == (p.0, p.1);
    }
  }

  lemma RectCellsSplit(r: Rect)
    requires r.height > 0
    ensures RectCells(r) == RectCells(Rect(r.x, r.y, r.width, r.height - 1)) + RowCells(r.x, r.y + r.height - 1, r.width)
    ensures RectCells(Rect(r.x, r.y, r.width, r.height - 1)) !! RowCells(r.x, r.y + r.height - 1, r.width)
  {
    var upper := Rect(r.x, r.y, r.width, r.height - 1);
    RectCellsMember(r);
    RectCellsMember(upper);
  }

  lemma AreaOneRowMore(r: Rect)
    requires r.height > 0
    ensures Area(r) == Area(Rect(r.x, r.y, r.width, r.height - 1)) + r.width
  {
    calc {
      Area(r);
    ==
      r.width * r.height;
    ==
      r.width * ((r.height - 1) + 1);
    ==
      r.width * (r.height - 1) + r.width;
    }
  }

  lemma {:induction false} RectCellsCard(r: Rect)
    ensures |RectCells(r)| == Area(r)
    decreases r.height
  {
    if r.height == 0 {
      RectCellsMember(r);
      assert RectCells(r) == {};
    } else {
      var upper := Rect(r.x, r.y, r.width, r.height - 1);
      RectCellsSplit(r);
      RectCellsCard(upper);
      RowCellsCard(r.x, r.y + r.height - 1, r.width);
      AreaOneRowMore(r);
    }
  }

  lemma {:induction false} CellsOfCovered(rects: seq<Rect>, px: int, py: int)
    ensures (px, py) in CellsOf(rects) <==> Covered(rects, px, py)
  {
    if rects != [] {
      var init, last := rects[..|rects| - 1], rects[|rects| - 1];
      CellsOfCovered(init, px, py);
      assert rects == init + [last];
      CoveredAppend(init, last, px, py);
    }
  }

  /** Pairwise disjoint rectangles cover exactly as many pixels as their areas add up to. */
  lemma {:induction false} DisjointCellsCard(rects: seq<Rect>)
    requires PairwiseDisjoint(rects)
    ensures |CellsOf(rects)| == SumAreas(rects)
  {
    if rects != [] {
      var n := |rects| - 1;
      var init, last := rects[..n], rects[n];
      assert PairwiseDisjoint(init) by {
        forall i, j | 0 <= i < j < |init|
          ensures Disjoint(init[i], init[j])
        {
          assert init[i] == rects[i] && init[j] == rects[j];
        }
      }
      DisjointCellsCard(init);
      RectCellsCard(last);
      forall px, py | (px, py) in CellsOf(init)
        ensures (px, py) !in RectCells(last)
      {
        CellsOfCovered(init, px, py);
        var i :| 0 <= i < |init| && InRect(init[i], px, py);
        assert Disjoint(rects[i], rects[n]);
        assert InRect(rects[i], px, py);
      }
      assert CellsOf(init) * RectCells(last) == {};
    }
  }

  lemma FgCellsMember(pixels: seq<int>, width: nat, height: nat)
    requires |pixels| == width * height
    ensures forall p :: p in FgCells(pixels, width, height) <==> IsFg(pixels, width, height, p.0, p.1)
  {
    forall p: (int, int) | IsFg(pixels, width, height, p.0, p.1)
      ensures p in FgCells(pixels, width, height)
    {
      assert p == (p.0, p.1);
    }
  }

  /** The areas of the packing sum to the number of black pixels. */
  lemma GreedyAreaSum(pixels: seq<int>, width: nat, height: nat, rects: seq<Rect>)
    requires |pixels| == width * height
    requires IsGreedyPacking(pixels, width, height, rects)
    ensures SumAreas(rects) == |FgCells(pixels, width, height)|
  {
    GreedyExactCover(pixels, width, height, rects);
    FgCellsMember(pixels, width, height);
    forall p: (int, int)
      ensures p in CellsOf(rects) <==> p in FgCells(pixels, width, height)
    {
      CellsOfCovered(rects, p.0, p.1);
    }
    assert CellsOf(rects) == FgCells(pixels, width, height);
    GreedyDisjoint(pixels, width, height, rects);
    DisjointCellsCard(rects);
  }

  /** Everything the packing promises, in one place. */
  lemma GreedyPackingProperties(pixels: seq<int>, width: nat, height: nat, rects: seq<Rect>)
    requires |pixels| == width * height
    requires IsGreedyPacking(pixels, width, height, rects)
    ensures forall i :: 0 <= i < |rects| ==> InBitmap(rects[i], width, height)
    ensures PairwiseDisjoint(rects)
    ensures forall px, py :: Covered(rects, px, py) <==> IsFg(pixels, width, height, px, py)
    ensures ScanOrdered(rects)
    ensures SumAreas(rects) == |FgCells(pixels, width, height)|
  {
    GreedyInBitmap(pixels, width, height, rects);
    GreedyDisjoint(pixels, width, height, rects);
    GreedyExactCover(pixels, width, height, rects);
    GreedyScanOrdered(pixels, width, height, rects);
    GreedyAreaSum(pixels, width, height, rects);
  }

  // ---------------------------------------------------------------------------
  // Small bitmaps

  /** A bitmap without pixels packs into no rectangles. */
  lemma EmptyBitmapPacking(pixels: seq<int>, width: nat, height: nat, rects: seq<Rect>)
    requires |pixels| == width * height
    requires width == 0 || height == 0
    requires IsGreedyPacking(pixels, width, height, rects)
    ensures rects == []
  {
    assert IsGreedyPacking(pixels, width, height, []);
    GreedyDeterministic(pixels, width, height, rects, []);
  }

  /** An all-black `width` x `height` bitmap packs into the single rectangle (0, 0, width, height). */
  lemma AllForegroundPacking(pixels: seq<int>, width: nat, height: nat, rects: seq<Rect>)
    requires |pixels| == width * height
    requires 1 <= width && 1 <= height
    requires forall i :: 0 <= i < |pixels| ==> pixels[i] == 0
    requires IsGreedyPacking(pixels, width, height, rects)
    ensures rects == [Rect(0, 0, width, height)]
  {
    var whole := Rect(0, 0, width, height);
    forall px, py | InRect(whole, px, py)
      ensures IsFg(pixels, width, height, px, py) && !Covered([], px, py)
    {
      IndexInGrid(width, height, px, py);
    }
    assert GreedyStep(pixels, width, height, [], whole);
    forall px, py | IsFg(pixels, width, height, px, py)
      ensures Covered([whole], px, py)
    {
      assert InRect([whole][0], px, py);
    }
    assert [whole][..0] == [];
    assert GreedySteps(pixels, width, height, [whole]);
    GreedyDeterministic(pixels, width, height, rects, [whole]);
  }

  /** The 2x2 checkerboard with black pixels at (0, 0) and (1, 1) only. */
  const Checkerboard: seq<int> := [0, 255, 255, 0]

  lemma CheckerboardFg(px: int, py: int)
    ensures IsFg(Checkerboard, 2, 2, px, py) <==> (px == 0 && py == 0) || (px == 1 && py == 1)
  {
    if 0 <= px < 2 && 0 <= py < 2 {
      assert py * 2 + px == if py == 0 then px else 2 + px;
    }
  }

  /** The checkerboard packs into the two 1x1 rectangles at (0, 0) and (1, 1). */
  lemma CheckerboardPacking(rects: seq<Rect>)
    requires IsGreedyPacking(Checkerboard, 2, 2, rects)
    ensures rects == [Rect(0, 0, 1, 1), Rect(1, 1, 1, 1)]
  {
    var a, b := Rect(0, 0, 1, 1), Rect(1, 1, 1, 1);
    var both := [a, b];
    forall px, py
      ensures IsFg(Checkerboard, 2, 2, px, py) <==> (px == 0 && py == 0) || (px == 1 && py == 1)
    {
      CheckerboardFg(px, py);
    }
    assert both[..0] == [] && both[..1] == [a];
    assert !Covered([], 0, 0);
    assert GreedyStep(Checkerboard, 2, 2, [], a) by {
      assert Blocked(Checkerboard, 2, 2, [], 0, 1);
    }
    assert InRect([a][0], 0, 0);
    assert GreedyStep(Checkerboard, 2, 2, [a], b);
    assert InRect(both[0], 0, 0) && InRect(both[1], 1, 1);
    assert IsGreedyPacking(Checkerboard, 2, 2, both);
    GreedyDeterministic(Checkerboard, 2, 2, rects, both);
  }
}
