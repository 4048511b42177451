/** The integer geometry of the transform: the crop box, the scale-to-fit
    size and the centering offsets of the paste. */
module Geometry {

  /** A Pillow crop box (left, top, right, bottom); right and bottom are exclusive. */
  datatype Box = Box(left: int, top: int, right: int, bottom: int) {
    function Width(): int { right - left }
    function Height(): int { bottom - top }
  }

  /** A width x height pair. */
  datatype Size = Size(width: int, height: int)

  /** Default arguments of `process_image`. */
  const DefaultOutputWidth := 300
  const DefaultOutputHeight := 400
  const DefaultLeftRightCrop := 60
  const DefaultTopBottomCrop := 68

  /** Margins that leave a non-empty image: each margin is non-negative and
      less than half of its dimension. */
  predicate ValidMargins(width: int, height: int, leftRight: int, topBottom: int)
  {
    0 <= leftRight && 0 <= topBottom && 2 * leftRight < width && 2 * topBottom < height
  }

  /** The box `(l, t, W - l, H - t)` that removes `l` columns on the left and on
      the right and `t` rows at the top and at the bottom. */
  function CropBox(width: int, height: int, leftRight: int, topBottom: int): (box: Box)
    ensures box.Width() == width - 2 * leftRight && box.Height() == height - 2 * topBottom
    ensures ValidMargins(width, height, leftRight, topBottom) <==>
              0 <= box.left < box.right <= width && 0 <= box.top < box.bottom <= height
  {
    Box(leftRight, topBottom, width - leftRight, height - topBottom)
  }

  /** The scale `min(outW / cropW, outH / cropH)` as an exact fraction
      `num / den`. Python's `min` keeps its first argument on a tie, so the
      horizontal ratio is chosen unless the vertical one is strictly smaller. */
  function FitRatio(cropW: int, cropH: int, outW: int, outH: int): (s: (int, int))
    requires cropW > 0 && cropH > 0 && outW >= 0 && outH >= 0
    ensures s.0 >= 0 && s.1 > 0
    // s is at most each of the two ratios ...
    ensures s.0 * cropW <= outW * s.1 && s.0 * cropH <= outH * s.1
    // ... and equal to one of them, so it is their minimum
    ensures s.0 * cropW == outW * s.1 || s.0 * cropH == outH * s.1
  {
    if outW * cropH <= outH * cropW then (outW, cropW) else (outH, cropH)
  }

  /** The size `(int(cropW * s), int(cropH * s))` of the scaled image, with the
      scale `s` of `FitRatio` taken exactly. Each side is the floor of the
      exactly scaled side. */
  function ScaledSize(cropW: int, cropH: int, outW: int, outH: int): (r: Size)
    requires cropW > 0 && cropH > 0 && outW >= 0 && outH >= 0
    ensures var s := FitRatio(cropW, cropH, outW, outH);
      0 <= r.width && r.width * s.1 <= cropW * s.0 < (r.width + 1) * s.1 &&
      0 <= r.height && r.height * s.1 <= cropH * s.0 < (r.height + 1) * s.1
  {
    var s := FitRatio(cropW, cropH, outW, outH);
    FloorBounds(cropW * s.0, s.1);
    FloorBounds(cropH * s.0, s.1);
    Size((cropW * s.0) / s.1, (cropH * s.0) / s.1)
  }

  /** The scaled image never exceeds the output bounds on either axis. */
  lemma ScaledSizeFits(cropW: int, cropH: int, outW: int, outH: int)
    requires cropW > 0 && cropH > 0 && outW >= 0 && outH >= 0
    ensures ScaledSize(cropW, cropH, outW, outH).width <= outW
    ensures ScaledSize(cropW, cropH, outW, outH).height <= outH
  {
    var s := FitRatio(cropW, cropH, outW, outH);
    var r := ScaledSize(cropW, cropH, outW, outH);
    MulLeCancel(r.width, outW, s.1);
    MulLeCancel(r.height, outH, s.1);
  }

  /** The scaled image touches at least one output bound exactly. */
  lemma ScaledSizeTouches(cropW: int, cropH: int, outW: int, outH: int)
    requires cropW > 0 && cropH > 0 && outW >= 0 && outH >= 0
    ensures ScaledSize(cropW, cropH, outW, outH).width == outW ||
            ScaledSize(cropW, cropH, outW, outH).height == outH
  {
    var s := FitRatio(cropW, cropH, outW, outH);
    var r := ScaledSize(cropW, cropH, outW, outH);
    if s.0 * cropW == outW * s.1 {
      MulLeCancel(r.width, outW, s.1);
      MulLtCancel(outW, r.width + 1, s.1);
    } else {
      MulLeCancel(r.height, outH, s.1);
      MulLtCancel(outH, r.height + 1, s.1);
    }
  }

  /** A cropped image that already has the output size is not rescaled. */
  lemma ScaledSizeUnscaled(width: int, height: int)
    requires width > 0 && height > 0
    ensures ScaledSize(width, height, width, height) == Size(width, height)
  {
    var r := ScaledSize(width, height, width, height);
    ScaledSizeFits(width, height, width, height);
    MulLtCancel(width, r.width + 1, width);
    MulLtCancel(height, r.height + 1, width);
  }

  /** The offset `(outer - inner) // 2` that centres `inner` in `outer`. It is
      Python's floor division, which Dafny's `/` agrees with for a positive divisor. */
  function CenterOffset(outer: int, inner: int): (x: int)
    // the two margins differ by at most one, the far one being the larger
    ensures 0 <= (outer - inner - x) - x <= 1
    // a fitting inner extent lies entirely inside the outer one
    ensures 0 <= inner <= outer ==> 0 <= x && x + inner <= outer
  {
    (outer - inner) / 2
  }

  /** Where the transform places the cropped, scaled image on the canvas. */
  datatype Layout = Layout(crop: Box, scaled: Size, x: int, y: int)

  /** The geometry of `process_image` for a `width x height` input, an
      `outW x outH` canvas and the two crop margins. */
  function PlanLayout(width: int, height: int, outW: int, outH: int,
                      leftRight: int, topBottom: int): (l: Layout)
    requires ValidMargins(width, height, leftRight, topBottom) && outW >= 0 && outH >= 0
    ensures l.crop.Width() == width - 2 * leftRight && l.crop.Height() == height - 2 * topBottom
    ensures 0 <= l.crop.left < l.crop.right <= width && 0 <= l.crop.top < l.crop.bottom <= height
    // the pasted rectangle lies inside the canvas ...
    ensures 0 <= l.x && l.x + l.scaled.width <= outW
    ensures 0 <= l.y && l.y + l.scaled.height <= outH
    // ... and fills it along at least one axis
    ensures l.scaled.width == outW || l.scaled.height == outH
  {
    var box := CropBox(width, height, leftRight, topBottom);
    var size := ScaledSize(box.Width(), box.Height(), outW, outH);
    ScaledSizeFits(box.Width(), box.Height(), outW, outH);
    ScaledSizeTouches(box.Width(), box.Height(), outW, outH);
    Layout(box, size, CenterOffset(outW, size.width), CenterOffset(outH, size.height))
  }

  /** Unfolding hint: `PlanLayout` in terms of the values a caller computed
      step by step. It states nothing beyond the definition. */
  lemma PlanLayoutSteps(width: int, height: int, outW: int, outH: int,
                        leftRight: int, topBottom: int, box: Box, size: Size)
    requires ValidMargins(width, height, leftRight, topBottom) && outW >= 0 && outH >= 0
    requires box == CropBox(width, height, leftRight, topBottom)
    requires size == ScaledSize(box.Width(), box.Height(), outW, outH)
    ensures PlanLayout(width, height, outW, outH, leftRight, topBottom)
         == Layout(box, size, CenterOffset(outW, size.width), CenterOffset(outH, size.height))
  {
  }

  /** The 420 x 536 input with the default arguments crops to 300 x 400, is not
      rescaled and is pasted at the canvas origin. */
  lemma DefaultLayout()
    ensures PlanLayout(420, 536, DefaultOutputWidth, DefaultOutputHeight,
                       DefaultLeftRightCrop, DefaultTopBottomCrop)
         == Layout(Box(60, 68, 360, 468), Size(300, 400), 0, 0)
  {
    ScaledSizeUnscaled(300, 400);
  }

  // Arithmetic helpers

  lemma FloorBounds(n: int, d: int)
    requires n >= 0 && d > 0
    ensures 0 <= n / d && (n / d) * d <= n < (n / d + 1) * d
  {
  }

  lemma MulLeCancel(a: int, b: int, d: int)
    requires d > 0 && a * d <= b * d
    ensures a <= b
  {
  }

  lemma MulLtCancel(a: int, b: int, d: int)
    requires d > 0 && a * d < b * d
    ensures a < b
  {
  }
}
