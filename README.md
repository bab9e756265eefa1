# Image-to-SVG fallback converter, modelled in Dafny

The application is a small Flask service. It accepts an uploaded image and returns an SVG
rendition of it. It prefers the external `potrace` tracer. Without potrace it falls back to
`image_to_svg_simple` in `app.py`:

1. The image becomes an 8-bit grayscale bitmap.
2. It is thresholded at a fixed value of 140. Values at or below 140 become black (0) and all
   others become white (255). The `threshold` argument is overwritten and has no effect.
3. A greedy scan covers the black pixels with axis-aligned rectangles. One
   `<rect x=".." y=".." width=".." height=".." fill="black"/>` element is written per rectangle.

The scan visits the pixels in row-major order. At every black pixel not yet marked
`processed` it does three things:
- it grows a rectangle to the right while the next pixel is black and unprocessed;
- it grows the rectangle downward while the whole next row under it is black and unprocessed;
- it marks the rectangle's pixels as processed.

The upload route accepts a file only when its name has a `.` and the lower-cased text after the
last `.` is one of `png jpg jpeg bmp tiff tif gif`.

The model has these modules:
- `Threshold` (`threshold.dfy`): the binarisation, as pure functions.
- `Packing` (`packing.dfy`): the packing stated on values. The predicate `IsGreedyPacking` says
  rectangle by rectangle what the scan emits. Each rectangle's corner is the first uncovered
  black pixel, its cells are black and uncovered, and its width and height cannot grow. When the
  packing ends, every black pixel is covered. The lemmas of `Packing` derive the packer's
  guarantees from this predicate.
- `Packer` (`packer.dfy`): the scan itself, as imperative code. The `processed` grid is an
  `array2<bool>` updated in place. The loops in it follow the source's loops, and
  `PackRectangles` is proved to produce a greedy packing.
- `Markup` (`markup.dfy`): the text of the `<rect>` elements, and a reader that parses them back.
- `Upload` (`upload.dfy`): the extension check.
- `Wrappers` (`wrappers.dfy`): the `Option` type shared by the reader and the last-dot search.
- `Fallback` (`fallback.dfy`): thresholding and packing composed, from a gray image to rectangles
  and element text.

Two guards in the source can never fire when the pixel list has `width * height` entries. The
model proves both redundant rather than modelling them:
- the `pixel_index < len(pixels)` bound tests;
- the `y + dy < height and x + dx < width` test when marking.

## Model

| member | source | states |
|---|---|---|
| Threshold.Level | app.py:56 | a gray value maps to 0 or 255, and to 0 exactly when it is at most 140 |
| Threshold.Binarize | app.py:55-56 | the pixel list keeps its length; each pixel is 0 or 255, and 0 exactly when its gray value is at most 140 |
| Threshold.ThresholdIgnored | app.py:37-56 | the caller's `threshold` argument never changes the thresholded image, because line 55 overwrites it |
| Threshold.BinarizeIdempotent | app.py:56 | thresholding an image that is already black and white leaves it unchanged |
| Packing.IndexInGrid | app.py:77-79 | a pixel inside the bitmap has a row-major index inside the pixel list |
| Packing.IsFgAt | app.py:77-80 | inside the bitmap, the black test at the flat index is the foreground predicate, and the index is in range, so the source's `pixel_index < len(pixels)` test always holds |
| Packing.GreedyInBitmap | app.py:83-104 | every emitted rectangle is at least 1x1 and lies inside the bitmap |
| Packing.GreedyCellsForeground | app.py:86-104 | every pixel covered by an emitted rectangle is black |
| Packing.GreedyDisjoint | app.py:78-80 | no two emitted rectangles share a pixel |
| Packing.GreedyExactCover | app.py:75-110 | a pixel is covered by some rectangle exactly when it is black |
| Packing.GreedyScanOrdered | app.py:75-76 | the rectangles' top-left corners are strictly increasing in row-major order |
| Packing.GreedyStepUnique | app.py:83-104 | from the same set of rectangles already emitted, the next rectangle is uniquely determined |
| Packing.PrefixesAgree | app.py:75-113 | two runs of greedy steps over the same bitmap agree on their common prefix |
| Packing.NoStepAfterPacking | app.py:75-113 | once every black pixel is covered, no further rectangle can be emitted |
| Packing.GreedyDeterministic | app.py:75-113 | the bitmap fixes the packing completely: two greedy packings of it are equal |
| Packing.GreedyAreaSum | app.py:70-113 | the areas of the rectangles add up to the number of black pixels |
| Packing.GreedyPackingProperties | app.py:70-113 | a greedy packing has in-bounds rectangles, is disjoint, covers exactly the black pixels, is in scan order and has the area sum |
| Packing.EmptyBitmapPacking | app.py:75-76 | a bitmap with no rows or no columns gives no rectangles |
| Packing.AllForegroundPacking | app.py:75-113 | an all-black bitmap gives the single rectangle (0, 0, width, height) |
| Packing.CheckerboardFg | app.py:77-80 | the 2x2 bitmap `[0, 255, 255, 0]` has black pixels exactly at (0, 0) and (1, 1) |
| Packing.CheckerboardPacking | app.py:75-113 | that 2x2 checkerboard gives the two 1x1 rectangles at (0, 0) and (1, 1), in that order |
| Packer.ExpandWidth | app.py:84-91 | the width is at least 1 and stays in the row; every pixel spanned is black and unprocessed; the next pixel to the right is off the bitmap, white or processed (the width is maximal) |
| Packer.RowCanExtend | app.py:95-102 | the `for dx` scan returns true exactly when every pixel of the row under the rectangle is black and unprocessed |
| Packer.ExpandHeight | app.py:93-104 | the height is at least 1 and stays in the bitmap; every pixel of the rectangle is black and unprocessed; the row under it is off the bitmap or not entirely free (the height is maximal) |
| Packer.MarkProcessed | app.py:106-110 | afterwards a pixel is processed exactly when it was before or lies in the rectangle; nothing else changes |
| Packer.EmittedIsGreedyStep | app.py:82-104 | the rectangle grown at the first unprocessed black pixel is the greedy step the packing predicate describes |
| Packer.EmitRectangle | app.py:82-110 | the rectangle formed at (x, y) has its corner there, is the next greedy step, and afterwards `processed` marks exactly the covered pixels |
| Packer.StartRectangle | app.py:78-110 | forming a rectangle at (x, y) keeps the scan's invariants: `processed` tracks coverage, the rectangles are greedy steps, and every black pixel up to (x, y) is covered |
| Packer.SkipPixel | app.py:77-80 | passing a white or processed pixel keeps "every black pixel before the scan position is covered" |
| Packer.VisitPixel | app.py:77-80 | a rectangle is started exactly when the pixel is black and not yet covered, with its corner at the pixel; the scan's invariants move one pixel on |
| Packer.ScanRow | app.py:76-113 | the rectangles from earlier rows are kept as a prefix and every rectangle added has its corner in row `y`; afterwards every black pixel in the row or above it is covered, the element text matches the rectangles, and the invariants hold |
| Packer.FinalGridIsMask | app.py:73-110 | after the scan, `processed` equals the black-pixel mask and the output is a complete greedy packing |
| Packer.PackRectangles | app.py:70-113 | the rectangles are the greedy packing: in bounds, pairwise disjoint, covering exactly the black pixels, in scan order, areas summing to the black-pixel count; the text is their elements in order |
| Markup.DigitChar | app.py:113 | a digit value below 10 becomes a digit character that reads back as the same value |
| Markup.Decimal | app.py:113 | `str(n)` is non-empty, all digits, and has no leading zero unless it is "0" |
| Markup.DecimalRoundTrip | app.py:113 | the decimal text of `n` reads back as `n` |
| Markup.DigitRun | app.py:113 | part of the model's own reader for the numbers line 113 writes (the inverse used by `RectElementsRoundTrip`), not source behaviour: the count of leading digits, every character before it a digit and the one after it not |
| Markup.RectElement | app.py:113 | the element written for one rectangle, `<rect x="X" y="Y" width="W" height="H" fill="black"/>` with each number in `str()` form, is a single line: it ends with its line break and holds no other (`ReadRectElementOf` shows it reads back as the rectangle) |
| Markup.RectElements | app.py:75-113 | the elements of the rectangles concatenated in emission order, as `svg_content +=` accumulates them: exactly one line per rectangle (`RectElementsRoundTrip` shows the text determines the rectangles) |
| Markup.RectElementsAppend | app.py:113 | appending a rectangle appends exactly its element to the text |
| Markup.ReadNumberOfDecimal | app.py:113 | a decimal followed by an attribute delimiter reads back as the number and the text after the delimiter |
| Markup.ReadRectElementOf | app.py:113 | one `<rect .../>` element, followed by any text, reads back as its rectangle and that text |
| Markup.RectElementsCons | app.py:113 | the text of a non-empty run is the first element followed by the text of the rest |
| Markup.RectElementsRoundTrip | app.py:113 | the element text written for any sequence of rectangles parses back to exactly that sequence |
| Upload.LowerChar | app.py:181 | only the ASCII capitals change: each becomes its small letter |
| Upload.Lower | app.py:181 | lower-casing keeps the length and maps each character through `LowerChar` |
| Upload.LastDot | app.py:181 | no position exactly when the name has no `.`, and otherwise the position of the last `.` |
| Upload.LastDotIs | app.py:181 | the last `.` is unique, and `LastDot` finds it |
| Upload.HasAllowedExtension | app.py:180-181 | an accepted name contains a `.` |
| Upload.AcceptedIff | app.py:180-181 | a name is accepted exactly when it has a last `.` and the lower-cased text after it is one of the seven allowed extensions |
| Upload.LastDotOfLower | app.py:181 | lower-casing leaves the position of the last `.` unchanged |
| Upload.LowerSuffix | app.py:181 | lower-casing commutes with taking the text after a position |
| Upload.CaseInsensitive | app.py:180-181 | names that lower-case to the same text are accepted or rejected alike |
| Upload.AcceptsUpperCaseExtension | app.py:180-181 | "Scan.TIFF" is accepted |
| Upload.AcceptsEmptyStem | app.py:180-181 | ".gif" is accepted (the stem may be empty) |
| Upload.RejectsNameWithoutDot | app.py:181 | "png" without a dot is rejected |
| Upload.RejectsOnlyLastExtensionCounts | app.py:181 | "image.png.exe" is rejected: only the text after the last `.` counts |
| Fallback.BinarizedFg | app.py:55-80 | after thresholding, a pixel is black exactly when it is inside the bitmap and its gray value is at most 140 |
| Fallback.ImageToRectangles | app.py:55-113 | the rectangles are the greedy packing of the thresholded image; they cover exactly the pixels of gray value at most 140, whatever `threshold` is passed; the element text parses back to them |

## Left out

- The Flask routes (`/`, `/health`, `/upload`, app.py:156-213) are not modelled. This covers the
  request handling, flash messages, `secure_filename`, the unique file names, saving and
  deleting files, and `send_file`. They are I/O. Only the extension test of `/upload` is
  modelled.
- The HTML template and the server start-up (app.py:215 onward) are not modelled. They are user
  interface and process plumbing, not packing or thresholding logic: the template's client-side
  JavaScript handlers for the upload form (app.py:482-521), and the start-up that reads `PORT`
  and `FLASK_ENV` and prints a banner warning when `find_potrace()` finds nothing (app.py:526-536).
- `find_potrace` and the potrace branch of `convert_image_to_svg` (app.py:18-35, 124-154) are
  not modelled. They run external processes and use the file system. The model starts where the
  fallback has the image.
- Image decoding, the grayscale conversion `convert('L')` and `thumbnail` resizing to at most
  600x600 (app.py:43-52) are not modelled. They are PIL code. The model takes the resized
  grayscale image as a row-major list of 0..255 values with its width and height.
- The SVG header and footer (app.py:59-67, 115) are not modelled. Neither are the scale factors
  `scale_x`/`scale_y` and their two-decimal formatting, which are floating point. Only the
  `<rect>` elements are modelled.
- Writing the file (app.py:117-118) and the `(success, message)` results, including the
  exception handler (app.py:120-122), are not modelled. They are I/O, and PIL's exceptions are
  not visible to the model.
- Upload.LowerChar, Upload.Lower: only ASCII capitals are lower-cased, while Python's `str.lower` also maps
  non-ASCII letters. The accept/reject decision is still the same for every name. Only two
  non-ASCII characters lower-case to ASCII: U+212A becomes 'k', which no allowed extension
  contains, and U+0130 becomes 'i' plus a non-ASCII combining dot.
- Fallback.ImageToRectangles: the pixel list of the mode "1" image is taken as 0 and 255 values.
  PIL may report white as 1 or 255 depending on version. Only "black is 0" matters to the
  packer, and that is what the model relies on.
