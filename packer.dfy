/**
 * The pixel-to-rectangle loop of `image_to_svg_simple` (app.py:70-113) as
 * imperative code: a row-major scan that marks a `processed` grid in place
 * and emits one rectangle for every black pixel it finds unprocessed.
 *
 * `PackRectangles` is proved to produce the greedy packing of `Packing`, and
 * with it every property proved about that packing.
 */
module Packer {
  import opened Wrappers
  import opened Packing
  import opened Markup

  /** `processed` is the height x width grid and marks exactly the pixels `rects` cover. */
  ghost predicate Tracks(processed: array2<bool>, rects: seq<Rect>, width: nat, height: nat)
    reads processed
  {
    && processed.Length0 == height && processed.Length1 == width
    && forall px, py :: 0 <= px < width && 0 <= py < height ==> (processed[py, px] <==> Covered(rects, px, py))
  }

  /** Pixel (px, py) stops a growing rectangle: it is outside the bitmap, white, or already processed. */
  predicate Stops(pixels: seq<int>, width: nat, height: nat, processed: array2<bool>, px: int, py: int)
    reads processed
    requires |pixels| == width * height
    requires processed.Length0 == height && processed.Length1 == width
  {
    !IsFg(pixels, width, height, px, py) || processed[py, px]
  }

  /** The `w` pixels of row `row` from column x on are all black and unprocessed. */
  predicate RowOpen(pixels: seq<int>, width: nat, height: nat, processed: array2<bool>, x: int, w: int, row: int)
    reads processed
    requires |pixels| == width * height
    requires processed.Length0 == height && processed.Length1 == width
  {
    forall px :: x <= px < x + w ==> !Stops(pixels, width, height, processed, px, row)
  }

  /**
   * Grow the rectangle at (x, y) to the right while the next pixel of row y
   * is black and unprocessed.
   */
  method ExpandWidth(pixels: seq<int>, width: nat, height: nat, processed: array2<bool>, x: nat, y: nat)
    returns (rectWidth: nat)
    requires |pixels| == width * height
    requires processed.Length0 == height && processed.Length1 == width
    requires IsFg(pixels, width, height, x, y) && !processed[y, x]
    ensures 1 <= rectWidth && x + rectWidth <= width
    ensures forall px :: x <= px < x + rectWidth ==> IsFg(pixels, width, height, px, y) && !processed[y, px]
    ensures x + rectWidth == width || Stops(pixels, width, height, processed, x + rectWidth, y)
  {
    rectWidth := 1;
    // the bound test `y * width + x + rectWidth < |pixels|` of the source always holds here
    while x + rectWidth < width
      && (IndexInGrid(width, height, x + rectWidth, y); pixels[y * width + x + rectWidth] == 0)
      && !processed[y, x + rectWidth]
      invariant 1 <= rectWidth && x + rectWidth <= width
      invariant forall px :: x <= px < x + rectWidth ==> IsFg(pixels, width, height, px, y) && !processed[y, px]
    {
      rectWidth := rectWidth + 1;
    }
  }

  /**
   * Scan the `rectWidth` pixels of row `row` from column x: the result is
   * false, and the scan stops, at the first one that is white or processed.
   */
  method RowCanExtend(pixels: seq<int>, width: nat, height: nat, processed: array2<bool>, x: nat, row: nat, rectWidth: nat)
    returns (canExpandHeight: bool)
    requires |pixels| == width * height
    requires processed.Length0 == height && processed.Length1 == width
    requires x + rectWidth <= width && row < height
    ensures canExpandHeight <==> RowOpen(pixels, width, height, processed, x, rectWidth, row)
  {
    canExpandHeight := true;
    for dx := 0 to rectWidth
      invariant canExpandHeight
      invariant forall px :: x <= px < x + dx ==> !Stops(pixels, width, height, processed, px, row)
    {
      var pixelIdx := row * width + x + dx;
      // the bound test `pixelIdx >= |pixels|` of the source never fires
      IndexInGrid(width, height, x + dx, row);
      if pixels[pixelIdx] != 0 || processed[row, x + dx] {
        canExpandHeight := false;
        assert Stops(pixels, width, height, processed, x + dx, row);
        break;
      }
    }
  }

  /**
   * Grow the rectangle of width `rectWidth` at (x, y) downward while the whole
   * next row under it is black and unprocessed.
   */
  method ExpandHeight(pixels: seq<int>, width: nat, height: nat, processed: array2<bool>, x: nat, y: nat, rectWidth: nat)
    returns (rectHeight: nat)
    requires |pixels| == width * height
    requires processed.Length0 == height && processed.Length1 == width
    requires 1 <= rectWidth && x + rectWidth <= width && y < height
    requires forall px :: x <= px < x + rectWidth ==> IsFg(pixels, width, height, px, y) && !processed[y, px]
    ensures 1 <= rectHeight && y + rectHeight <= height
    ensures forall px, py :: x <= px < x + rectWidth && y <= py < y + rectHeight ==>
      IsFg(pixels, width, height, px, py) && !processed[py, px]
    ensures y + rectHeight == height || !RowOpen(pixels, width, height, processed, x, rectWidth, y + rectHeight)
  {
    rectHeight := 1;
    var canExpandHeight := true;
    while y + rectHeight < height && canExpandHeight
      invariant 1 <= rectHeight && y + rectHeight <= height
      invariant forall px, py :: x <= px < x + rectWidth && y <= py < y + rectHeight ==>
        IsFg(pixels, width, height, px, py) && !processed[py, px]
      invariant !canExpandHeight ==>
        y + rectHeight < height && !RowOpen(pixels, width, height, processed, x, rectWidth, y + rectHeight)
      decreases height - rectHeight, canExpandHeight
    {
      var row := y + rectHeight;
      canExpandHeight := RowCanExtend(pixels, width, height, processed, x, row, rectWidth);
      if canExpandHeight {
        forall px | x <= px < x + rectWidth
          ensures IsFg(pixels, width, height, px, row) && !processed[row, px]
        {
          assert !Stops(pixels, width, height, processed, px, row);
        }
        rectHeight := rectHeight + 1;
      }
    }
  }

  /** Mark every pixel of the rectangle (x, y, rectWidth, rectHeight) as processed. */
  method MarkProcessed(processed: array2<bool>, x: nat, y: nat, rectWidth: nat, rectHeight: nat)
    requires x + rectWidth <= processed.Length1 && y + rectHeight <= processed.Length0
    modifies processed
    ensures forall px, py :: 0 <= px < processed.Length1 && 0 <= py < processed.Length0 ==>
      processed[py, px] == (old(processed[py, px]) || InRect(Rect(x, y, rectWidth, rectHeight), px, py))
  {
    for dy := 0 to rectHeight
      invariant forall px, py :: 0 <= px < processed.Length1 && 0 <= py < processed.Length0 ==>
        processed[py, px] == (old(processed[py, px]) || InRect(Rect(x, y, rectWidth, dy), px, py))
    {
      for dx := 0 to rectWidth
        invariant forall px, py :: 0 <= px < processed.Length1 && 0 <= py < processed.Length0 ==>
          processed[py, px] == (old(processed[py, px]) || InRect(Rect(x, y, rectWidth, dy), px, py)
                                || (py == y + dy && x <= px < x + dx))
      {
        // the source's test `y + dy < height and x + dx < width` always holds
        assert y + dy < processed.Length0 && x + dx < processed.Length1;
        processed[y + dy, x + dx] := true;
      }
    }
  }

  /**
   * Form, mark and return the rectangle whose top-left corner is the black,
   * unprocessed pixel (x, y) that the scan has reached.
   */
  method EmitRectangle(pixels: seq<int>, width: nat, height: nat, processed: array2<bool>, ghost rects: seq<Rect>,
                       x: nat, y: nat)
    returns (r: Rect)
    requires |pixels| == width * height
    requires Tracks(processed, rects, width, height)
    requires IsFg(pixels, width, height, x, y) && !processed[y, x]
    requires forall px, py :: IsFg(pixels, width, height, px, py) && Before(px, py, x, y) ==> Covered(rects, px, py)
    modifies processed
    ensures r.x == x && r.y == y
    ensures GreedyStep(pixels, width, height, rects, r)
    ensures Tracks(processed, rects + [r], width, height)
  {
    var rectWidth := ExpandWidth(pixels, width, height, processed, x, y);
    var rectHeight := ExpandHeight(pixels, width, height, processed, x, y, rectWidth);
    r := Rect(x, y, rectWidth, rectHeight);
    EmittedIsGreedyStep(pixels, width, height, processed, rects, x, y, rectWidth, rectHeight);
    MarkProcessed(processed, x, y, rectWidth, rectHeight);
    CoveredAppendAll(rects, r);
  }

  /**
   * The whole scan: returns the rectangles in the order they are found, and
   * the `<rect .../>` elements the source appends to `svg_content` for them.
   */
  method PackRectangles(pixels: seq<int>, width: nat, height: nat) returns (rects: seq<Rect>, elements: string)
    requires |pixels| == width * height
    ensures elements == RectElements(rects)
    ensures IsGreedyPacking(pixels, width, height, rects)
    ensures forall i :: 0 <= i < |rects| ==> InBitmap(rects[i], width, height)
    ensures PairwiseDisjoint(rects)
    ensures forall px, py :: Covered(rects, px, py) <==> IsFg(pixels, width, height, px, py)
    ensures ScanOrdered(rects)
    ensures SumAreas(rects) == |FgCells(pixels, width, height)|
  {
    var processed := new bool[height, width]((_, _) => false);
    rects, elements := [], "";
    for y := 0 to height
      invariant elements == RectElements(rects)
      invariant Tracks(processed, rects, width, height)
      invariant GreedySteps(pixels, width, height, rects)
      invariant forall px, py :: IsFg(pixels, width, height, px, py) && py < y ==> Covered(rects, px, py)
    {
      rects, elements := ScanRow(pixels, width, height, processed, y, rects, elements);
    }
    FinalGridIsMask(pixels, width, height, processed, rects);
    GreedyPackingProperties(pixels, width, height, rects);
  }

  /**
   * One pass of the inner loop over row `y`: every black pixel that no
   * earlier rectangle covers starts a new one. The earlier rectangles are
   * kept, and every rectangle added has its corner in row `y`.
   */
  method ScanRow(pixels: seq<int>, width: nat, height: nat, processed: array2<bool>, y: nat,
                 rects0: seq<Rect>, elements0: string)
    returns (rects: seq<Rect>, elements: string)
    requires |pixels| == width * height && y < height
    requires elements0 == RectElements(rects0)
    requires Tracks(processed, rects0, width, height)
    requires GreedySteps(pixels, width, height, rects0)
    requires forall px, py :: IsFg(pixels, width, height, px, py) && py < y ==> Covered(rects0, px, py)
    modifies processed
    ensures elements == RectElements(rects)
    ensures Tracks(processed, rects, width, height)
    ensures GreedySteps(pixels, width, height, rects)
    ensures forall px, py :: IsFg(pixels, width, height, px, py) && py <= y ==> Covered(rects, px, py)
    ensures rects0 <= rects
    ensures forall i :: |rects0| <= i < |rects| ==> rects[i].y == y
  {
    rects, elements := rects0, elements0;
    for x := 0 to width
      invariant rects0 <= rects
      invariant forall i :: |rects0| <= i < |rects| ==> rects[i].y == y
      invariant elements == RectElements(rects)
      invariant Tracks(processed, rects, width, height)
      invariant GreedySteps(pixels, width, height, rects)
      invariant forall px, py :: IsFg(pixels, width, height, px, py) && Before(px, py, x, y) ==> Covered(rects, px, py)
    {
      var found := VisitPixel(pixels, width, height, processed, x, y, rects);
      if found.Some? {
        // add the rectangle to the SVG text
        RectElementsAppend(rects, found.value);
        elements := elements + RectElement(found.value);
      }
      ExtendedInRow(rects0, rects, found, y);
      rects := Extended(rects, found);
    }
  }

  /** Adding a rectangle cornered in row `y` keeps the row scan's earlier rectangles and its row. */
  lemma ExtendedInRow(rects0: seq<Rect>, rects: seq<Rect>, found: Option<Rect>, y: nat)
    requires rects0 <= rects
    requires forall i :: |rects0| <= i < |rects| ==> rects[i].y == y
    requires found.Some? ==> found.value.y == y
    ensures rects0 <= Extended(rects, found)
    ensures forall i :: |rects0| <= i < |Extended(rects, found)| ==> Extended(rects, found)[i].y == y
  {
  }

  /** The rectangles after a pixel has been visited: one more when it started one. */
  function Extended(rects: seq<Rect>, found: Option<Rect>): seq<Rect>
  {
    match found
    case None => rects
    case Some(r) => rects + [r]
  }

  /**
   * The body of the inner loop at pixel (x, y): a black pixel that no earlier
   * rectangle covers starts a new rectangle with its corner there, which is
   * returned; any other pixel is skipped.
   */
  method VisitPixel(pixels: seq<int>, width: nat, height: nat, processed: array2<bool>, x: nat, y: nat,
                    ghost rects: seq<Rect>)
    returns (found: Option<Rect>)
    requires |pixels| == width * height && x < width && y < height
    requires Tracks(processed, rects, width, height)
    requires GreedySteps(pixels, width, height, rects)
    requires forall px, py :: IsFg(pixels, width, height, px, py) && Before(px, py, x, y) ==> Covered(rects, px, py)
    modifies processed
    ensures found.Some? <==> IsFg(pixels, width, height, x, y) && !Covered(rects, x, y)
    ensures found.Some? ==> found.value.x == x && found.value.y == y
    ensures Tracks(processed, Extended(rects, found), width, height)
    ensures GreedySteps(pixels, width, height, Extended(rects, found))
    ensures forall px, py :: IsFg(pixels, width, height, px, py) && Before(px, py, x + 1, y) ==>
      Covered(Extended(rects, found), px, py)
  {
    var pixelIndex := y * width + x;
    // the bound test `pixelIndex < |pixels|` of the source always holds
    IsFgAt(pixels, width, height, x, y);
    if pixels[pixelIndex] == 0 && !processed[y, x] {
      var r := StartRectangle(pixels, width, height, processed, x, y, rects);
      found := Some(r);
    } else {
      found := None;
      SkipPixel(pixels, width, height, processed, rects, x, y);
    }
  }

  /** The branch of the inner loop that passes over a white or processed pixel. */
  lemma SkipPixel(pixels: seq<int>, width: nat, height: nat, processed: array2<bool>, rects: seq<Rect>, x: nat, y: nat)
    requires |pixels| == width * height && x < width && y < height
    requires Tracks(processed, rects, width, height)
    requires !IsFg(pixels, width, height, x, y) || processed[y, x]
    requires forall px, py :: IsFg(pixels, width, height, px, py) && Before(px, py, x, y) ==> Covered(rects, px, py)
    ensures forall px, py :: IsFg(pixels, width, height, px, py) && Before(px, py, x + 1, y) ==> Covered(rects, px, py)
  {
    ScanPastPixel(pixels, width, height, rects, x, y);
  }

  /** The branch of the inner loop that forms a rectangle at (x, y). */
  method StartRectangle(pixels: seq<int>, width: nat, height: nat, processed: array2<bool>, x: nat, y: nat,
                        ghost rects: seq<Rect>)
    returns (r: Rect)
    requires |pixels| == width * height && x < width && y < height
    requires Tracks(processed, rects, width, height)
    requires IsFg(pixels, width, height, x, y) && !processed[y, x]
    requires GreedySteps(pixels, width, height, rects)
    requires forall px, py :: IsFg(pixels, width, height, px, py) && Before(px, py, x, y) ==> Covered(rects, px, py)
    modifies processed
    ensures r.x == x && r.y == y
    ensures Tracks(processed, rects + [r], width, height)
    ensures GreedySteps(pixels, width, height, rects + [r])
    ensures forall px, py :: IsFg(pixels, width, height, px, py) && Before(px, py, x + 1, y) ==> Covered(rects + [r], px, py)
  {
    r := EmitRectangle(pixels, width, height, processed, rects, x, y);
    GreedyStepsAppend(pixels, width, height, rects, r);
    CoveredAppendAll(rects, r);
    assert InRect(r, x, y);
    ScanPastPixel(pixels, width, height, rects + [r], x, y);
  }

  /** Moving the scan one pixel to the right keeps "everything black before the scan is covered". */
  lemma ScanPastPixel(pixels: seq<int>, width: nat, height: nat, rects: seq<Rect>, x: nat, y: nat)
    requires |pixels| == width * height
    requires forall px, py :: IsFg(pixels, width, height, px, py) && Before(px, py, x, y) ==> Covered(rects, px, py)
    requires IsFg(pixels, width, height, x, y) ==> Covered(rects, x, y)
    ensures forall px, py :: IsFg(pixels, width, height, px, py) && Before(px, py, x + 1, y) ==> Covered(rects, px, py)
  {
  }

  /** At the end of the scan the `processed` grid equals the foreground mask. */
  lemma FinalGridIsMask(pixels: seq<int>, width: nat, height: nat, processed: array2<bool>, rects: seq<Rect>)
    requires |pixels| == width * height
    requires Tracks(processed, rects, width, height)
    requires GreedySteps(pixels, width, height, rects)
    requires forall px, py :: IsFg(pixels, width, height, px, py) && py < height ==> Covered(rects, px, py)
    ensures IsGreedyPacking(pixels, width, height, rects)
    ensures forall px, py :: 0 <= px < width && 0 <= py < height ==>
      (processed[py, px] <==> IsFg(pixels, width, height, px, py))
  {
    GreedyExactCover(pixels, width, height, rects);
  }

  /** What the scan has established about the rectangle it is about to emit makes it the greedy step. */
  lemma EmittedIsGreedyStep(pixels: seq<int>, width: nat, height: nat, processed: array2<bool>, rects: seq<Rect>,
                            x: nat, y: nat, rectWidth: nat, rectHeight: nat)
    requires |pixels| == width * height
    requires Tracks(processed, rects, width, height)
    requires 1 <= rectWidth && x + rectWidth <= width && 1 <= rectHeight && y + rectHeight <= height
    requires forall px, py :: IsFg(pixels, width, height, px, py) && Before(px, py, x, y) ==> Covered(rects, px, py)
    requires forall px, py :: x <= px < x + rectWidth && y <= py < y + rectHeight ==>
      IsFg(pixels, width, height, px, py) && !processed[py, px]
    requires x + rectWidth == width || Stops(pixels, width, height, processed, x + rectWidth, y)
    requires y + rectHeight == height || !RowOpen(pixels, width, height, processed, x, rectWidth, y + rectHeight)
    ensures GreedyStep(pixels, width, height, rects, Rect(x, y, rectWidth, rectHeight))
  {
    var r := Rect(x, y, rectWidth, rectHeight);
    forall px, py | InRect(r, px, py)
      ensures IsFg(pixels, width, height, px, py) && !Covered(rects, px, py)
    {
      assert !processed[py, px];
    }
    assert InRect(r, x, y);
    assert x + rectWidth < width ==> Blocked(pixels, width, height, rects, x + rectWidth, y);
    if y + rectHeight < height {
      var px :| x <= px < x + rectWidth && Stops(pixels, width, height, processed, px, y + rectHeight);
      assert Blocked(pixels, width, height, rects, px, y + rectHeight);
    }
  }
}
