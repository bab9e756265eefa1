/**
 * Binarisation in `image_to_svg_simple` (app.py:55-56). The grayscale image
 * is mapped through `255 if v > threshold else 0` into a mode "1" image.
 * The function's `threshold` parameter (default 128) is overwritten with 140
 * just before the mapping, so whatever a caller passes has no effect.
 */
module Threshold {

  /** An 8-bit gray value of a mode "L" image. */
  type Gray = g: int | 0 <= g < 256

  /** The value line 55 assigns to `threshold`. */
  const FixedThreshold: Gray := 140

  /** The lookup applied to a single gray value: 0 is black (foreground), 255 white. */
  function Level(v: Gray): (p: int)
    ensures p == 0 || p == 255
    ensures p == 0 <==> v <= FixedThreshold
  {
    if v > FixedThreshold then 255 else 0
  }

  /**
   * The row-major pixel list of the thresholded image. `threshold` is the
   * caller's argument, which the source discards.
   */
  function Binarize(gray: seq<Gray>, threshold: int): (pixels: seq<int>)
    ensures |pixels| == |gray|
    ensures forall i :: 0 <= i < |gray| ==> (pixels[i] == 0 || pixels[i] == 255)
    ensures forall i :: 0 <= i < |gray| ==> (pixels[i] == 0 <==> gray[i] <= FixedThreshold)
  {
    if gray == [] then [] else [Level(gray[0])] + Binarize(gray[1..], threshold)
  }

  /** The threshold a caller passes never changes the result. */
  lemma {:induction false} ThresholdIgnored(gray: seq<Gray>, t1: int, t2: int)
    ensures Binarize(gray, t1) == Binarize(gray, t2)
  {
    if gray != [] {
      ThresholdIgnored(gray[1..], t1, t2);
    }
  }

  /** Thresholding an already black-and-white image leaves it unchanged. */
  lemma {:induction false} BinarizeIdempotent(gray: seq<Gray>, threshold: int)
    requires forall i :: 0 <= i < |gray| ==> gray[i] == 0 || gray[i] == 255
    ensures Binarize(gray, threshold) == gray
  {
    if gray != [] {
      BinarizeIdempotent(gray[1..], threshold);
    }
  }
}
