/** `process_image`: crop, scale to fit, centre on a white canvas, recolour
    the near-black pixels of rows [45, 215), rotate a quarter turn. */
module Pipeline {
  import opened Image
  import opened Geometry
  import opened Transform

  /** The resampling filter, left opaque: `resize(src, w, h, c, r)` is pixel
      `(c, r)` of the image `src` resized to `w x h`. */
  type Resize = (Grid, int, int, int, int) -> RGB

  /** The canvas pixel at `(c, r)` after the paste: the resized cropped pixels
      `cropped` where they cover the canvas, white elsewhere. */
  function CanvasPixel(layout: Layout, resize: Resize, cropped: Grid, c: int, r: int): (p: RGB)
  {
    if layout.x <= c < layout.x + layout.scaled.width && layout.y <= r < layout.y + layout.scaled.height
    then resize(cropped, layout.scaled.width, layout.scaled.height, c - layout.x, r - layout.y)
    else White
  }

  /** The pixel at `(i, j)` of the final `outH x outW` image: canvas pixel
      `(outW - 1 - j, i)`, which the rotation brings there, after recolouring. */
  function OutputPixel(layout: Layout, resize: Resize, cropped: Grid,
                       outW: int, outH: int, i: int, j: int): (p: RGB)
  {
    RecolorPixel(CanvasPixel(layout, resize, cropped, outW - 1 - j, i), i, DefaultBand, outH)
  }

  /** A new white `outW x outH` canvas with `scaled` pasted at `(x, y)`. */
  method ComposeCanvas(scaled: array2<RGB>, outW: nat, outH: nat, x: int, y: int)
    returns (canvas: array2<RGB>)
    ensures fresh(canvas) && canvas.Length0 == outW && canvas.Length1 == outH
    ensures forall c, r :: 0 <= c < outW && 0 <= r < outH ==>
              canvas[c, r] == if x <= c < x + scaled.Length0 && y <= r < y + scaled.Length1
                              then scaled[c - x, r - y] else White
  {
    canvas := new RGB[outW, outH]((c, r) => White);
    Paste(canvas, scaled, x, y);
  }

  /** The transform of `process_image` on a decoded image `img`. The Lanczos
      filter is the opaque `resize`, applied to the pixels inside the crop box
      and the scaled size computed here. */
  method ProcessImage(img: array2<RGB>, resize: Resize,
                      outW: int, outH: int, leftRight: int, topBottom: int)
    returns (out: array2<RGB>)
    requires ValidMargins(img.Length0, img.Length1, leftRight, topBottom)
    requires outW >= 0 && outH >= 0
    ensures fresh(out)
    // the result is the canvas turned on its side: outH wide, outW tall
    ensures out.Length0 == outH && out.Length1 == outW
    ensures var layout := PlanLayout(img.Length0, img.Length1, outW, outH, leftRight, topBottom);
      forall i, j :: 0 <= i < outH && 0 <= j < outW ==>
        out[i, j] == OutputPixel(layout, resize, Region(img, layout.crop), outW, outH, i, j)
  {
    var box := CropBox(img.Length0, img.Length1, leftRight, topBottom);
    var cropped := Crop(img, box);
    var size := ScaledSize(cropped.Length0, cropped.Length1, outW, outH);
    var source := Pixels(cropped);
    var scaled := new RGB[size.width, size.height]((c, r) => resize(source, size.width, size.height, c, r));
    var x := CenterOffset(outW, size.width);
    var y := CenterOffset(outH, size.height);
    ghost var layout := Layout(box, size, x, y);
    PlanLayoutSteps(img.Length0, img.Length1, outW, outH, leftRight, topBottom, box, size);
    assert source == Region(img, layout.crop) by {
      CropIsRegion(img, box, cropped);
    }

    var canvas := ComposeCanvas(scaled, outW, outH, x, y);
    assert forall c, r :: 0 <= c < outW && 0 <= r < outH ==>
             canvas[c, r] == CanvasPixel(layout, resize, source, c, r) by {
      forall c, r | 0 <= c < outW && 0 <= r < outH
        ensures canvas[c, r] == CanvasPixel(layout, resize, source, c, r)
      {
        if x <= c < x + size.width && y <= r < y + size.height {
          assert canvas[c, r] == scaled[c - x, r - y];
        }
      }
    }

    out := RecolorAndRotate(canvas, layout, resize, source);
  }

  /** The last two steps on a composed canvas: recolour the default band in
      place, then turn the canvas a quarter turn into a new image. The canvas
      is left recoloured; the caller only keeps the turned image. */
  method RecolorAndRotate(canvas: array2<RGB>, ghost layout: Layout, resize: Resize, ghost cropped: Grid)
    returns (out: array2<RGB>)
    requires forall c, r :: 0 <= c < canvas.Length0 && 0 <= r < canvas.Length1 ==>
               canvas[c, r] == CanvasPixel(layout, resize, cropped, c, r)
    modifies canvas
    ensures fresh(out)
    ensures forall c, r :: 0 <= c < canvas.Length0 && 0 <= r < canvas.Length1 ==>
              canvas[c, r] == RecolorPixel(CanvasPixel(layout, resize, cropped, c, r), r, DefaultBand, canvas.Length1)
    ensures out.Length0 == canvas.Length1 && out.Length1 == canvas.Length0
    ensures forall i, j :: 0 <= i < out.Length0 && 0 <= j < out.Length1 ==>
              out[i, j] == OutputPixel(layout, resize, cropped, canvas.Length0, canvas.Length1, i, j)
  {
    RecolorBand(canvas, DefaultBand);
    out := Rotate90(canvas);
    forall i, j | 0 <= i < out.Length0 && 0 <= j < out.Length1
      ensures out[i, j] == OutputPixel(layout, resize, cropped, canvas.Length0, canvas.Length1, i, j)
    {
      assert out[i, j] == canvas[canvas.Length0 - 1 - j, i];
    }
  }

  /** When the canvas is one column wider than the scaled image, the image
      fills the canvas height and starts at column 0: the left column shows
      the image and only the right column is white margin. */
  lemma OneColumnMarginIsOnTheRight(width: int, height: int, outW: int, outH: int,
                                    leftRight: int, topBottom: int, resize: Resize, cropped: Grid)
    requires ValidMargins(width, height, leftRight, topBottom) && outW >= 2 && outH >= 0
    requires outW == PlanLayout(width, height, outW, outH, leftRight, topBottom).scaled.width + 1
    ensures var layout := PlanLayout(width, height, outW, outH, leftRight, topBottom);
      layout.x == 0 && layout.y == 0 && layout.scaled.height == outH &&
      forall r :: 0 <= r < outH ==>
        CanvasPixel(layout, resize, cropped, 0, r) == resize(cropped, outW - 1, outH, 0, r) &&
        CanvasPixel(layout, resize, cropped, outW - 1, r) == White
  {
    var box := CropBox(width, height, leftRight, topBottom);
    var size := ScaledSize(box.Width(), box.Height(), outW, outH);
    var layout := PlanLayout(width, height, outW, outH, leftRight, topBottom);
    assert layout == Layout(box, size, CenterOffset(outW, size.width), CenterOffset(outH, size.height)) by {
      PlanLayoutSteps(width, height, outW, outH, leftRight, topBottom, box, size);
    }
    assert size.width == outW || size.height == outH by {
      ScaledSizeTouches(box.Width(), box.Height(), outW, outH);
    }
    OneColumnFacts(outW, outH, size.width, size.height);
    assert layout == Layout(box, Size(outW - 1, outH), 0, 0);
    OneColumnCanvas(box, resize, cropped, outW, outH);
  }

  /** The integer step of `OneColumnMarginIsOnTheRight`: a `w x h` image that
      touches a bound and is one column narrower than the canvas fills its
      height, and both offsets are 0. */
  lemma OneColumnFacts(outW: int, outH: int, w: int, h: int)
    requires outW == w + 1 && (w == outW || h == outH)
    ensures h == outH && CenterOffset(outW, w) == 0 && CenterOffset(outH, h) == 0
  {
  }

  /** The canvas step of `OneColumnMarginIsOnTheRight`: an `(outW - 1) x outH`
      image pasted at the origin covers the left column and leaves the right one white. */
  lemma OneColumnCanvas(box: Box, resize: Resize, cropped: Grid, outW: int, outH: int)
    requires outW >= 2
    ensures var layout := Layout(box, Size(outW - 1, outH), 0, 0);
      forall r :: 0 <= r < outH ==>
        CanvasPixel(layout, resize, cropped, 0, r) == resize(cropped, outW - 1, outH, 0, r) &&
        CanvasPixel(layout, resize, cropped, outW - 1, r) == White
  {
    var layout := Layout(box, Size(outW - 1, outH), 0, 0);
    forall r | 0 <= r < outH
      ensures CanvasPixel(layout, resize, cropped, 0, r) == resize(cropped, outW - 1, outH, 0, r)
      ensures CanvasPixel(layout, resize, cropped, outW - 1, r) == White
    {
      assert 0 <= 0 < outW - 1 && 0 <= r < outH;
      assert !(outW - 1 < outW - 1);
    }
  }
}
