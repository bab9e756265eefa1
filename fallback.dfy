/**
 * The body of `image_to_svg_simple` (app.py:37-122) from the grayscale,
 * resized image on: the fixed-threshold binarisation (lines 55-56) feeding
 * the rectangle scan (lines 70-113), which yields the rectangles and their
 * `<rect .../>` elements.
 */
module Fallback {
  import opened Wrappers
  import opened Threshold
  import opened Packing
  import opened Markup
  import Packer

  /** The gray value of pixel (px, py) in the row-major pixel list. */
  function GrayAt(gray: seq<Gray>, width: nat, height: nat, px: nat, py: nat): Gray
    requires |gray| == width * height && px < width && py < height
  {
    IndexInGrid(width, height, px, py);
    gray[py * width + px]
  }

  /**
   * Threshold the image and pack its black pixels. The rectangles cover
   * exactly the pixels whose gray value is at most 140, whatever `threshold`
   * the caller passed, and the element text reads back as the rectangles.
   */
  method ImageToRectangles(gray: seq<Gray>, width: nat, height: nat, threshold: int)
    returns (rects: seq<Rect>, elements: string)
    requires |gray| == width * height
    ensures IsGreedyPacking(Binarize(gray, threshold), width, height, rects)
    ensures forall px, py :: Covered(rects, px, py) <==>
      0 <= px < width && 0 <= py < height && GrayAt(gray, width, height, px, py) <= FixedThreshold
    ensures elements == RectElements(rects)
    ensures ReadRectElements(elements) == Some(rects)
  {
    var pixels := Binarize(gray, threshold);
    rects, elements := Packer.PackRectangles(pixels, width, height);
    BinarizedFg(gray, width, height, threshold);
    RectElementsRoundTrip(rects);
  }

  /** After thresholding, the black pixels are those with gray value at most 140. */
  lemma BinarizedFg(gray: seq<Gray>, width: nat, height: nat, threshold: int)
    requires |gray| == width * height
    ensures forall px, py :: IsFg(Binarize(gray, threshold), width, height, px, py) <==>
      0 <= px < width && 0 <= py < height && GrayAt(gray, width, height, px, py) <= FixedThreshold
  {
    var pixels := Binarize(gray, threshold);
    forall px, py
      ensures IsFg(pixels, width, height, px, py) <==>
        0 <= px < width && 0 <= py < height && GrayAt(gray, width, height, px, py) <= FixedThreshold
    {
      if 0 <= px < width && 0 <= py < height {
        IndexInGrid(width, height, px, py);
      }
    }
  }
}
