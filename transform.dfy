/** The pixel-buffer steps of the transform: crop, paste onto the canvas,
    recolour the near-black pixels of a row band, rotate a quarter turn. */
module Transform {
  import opened Image
  import opened Geometry

  /** An image's pixels as a value, column by column: `g[c][r]` is pixel `(c, r)`. */
  type Grid = seq<seq<RGB>>

  /** The pixels of `img` inside `box`, as a value. */
  function Region(img: array2<RGB>, box: Box): (g: Grid)
    requires 0 <= box.left <= box.right <= img.Length0
    requires 0 <= box.top <= box.bottom <= img.Length1
    reads img
    ensures |g| == box.Width()
    ensures forall c :: 0 <= c < |g| ==> |g[c]| == box.Height()
    ensures forall c, r :: 0 <= c < box.Width() && 0 <= r < box.Height() ==>
              g[c][r] == img[box.left + c, box.top + r]
  {
    seq(box.Width(), (c: int) requires 0 <= c < box.Width() reads img =>
      seq(box.Height(), (r: int) requires 0 <= r < box.Height() reads img =>
        img[box.left + c, box.top + r]))
  }

  /** All the pixels of `img`, as a value. */
  function Pixels(img: array2<RGB>): (g: Grid)
    reads img
    ensures |g| == img.Length0
    ensures forall c :: 0 <= c < |g| ==> |g[c]| == img.Length1
    ensures forall c, r {:trigger g[c][r]} :: 0 <= c < img.Length0 && 0 <= r < img.Length1 ==> g[c][r] == img[c, r]
  {
    Region(img, Box(0, 0, img.Length0, img.Length1))
  }

  /** The pixels of `img` inside `box`, as Pillow's `crop`. */
  method Crop(img: array2<RGB>, box: Box) returns (out: array2<RGB>)
    requires 0 <= box.left <= box.right <= img.Length0
    requires 0 <= box.top <= box.bottom <= img.Length1
    ensures fresh(out)
    ensures out.Length0 == box.Width() && out.Length1 == box.Height()
    ensures forall c, r :: 0 <= c < out.Length0 && 0 <= r < out.Length1 ==>
              out[c, r] == img[box.left + c, box.top + r]
  {
    out := new RGB[box.Width(), box.Height()];
    var r := 0;
    while r < out.Length1
      invariant 0 <= r <= out.Length1
      invariant forall c', r' :: 0 <= c' < out.Length0 && 0 <= r' < r ==>
                  out[c', r'] == img[box.left + c', box.top + r']
    {
      var c := 0;
      while c < out.Length0
        invariant 0 <= c <= out.Length0
        invariant forall c', r' :: 0 <= c' < out.Length0 && 0 <= r' < r ==>
                    out[c', r'] == img[box.left + c', box.top + r']
        invariant forall c' :: 0 <= c' < c ==> out[c', r] == img[box.left + c', box.top + r]
      {
        out[c, r] := img[box.left + c, box.top + r];
        c := c + 1;
      }
      r := r + 1;
    }
  }

  /** What `Crop` computes, as a value: an image holding the pixels of `img`
      inside `box`, each shifted by the box's corner, has exactly the pixels
      `Region(img, box)`. */
  lemma CropIsRegion(img: array2<RGB>, box: Box, out: array2<RGB>)
    requires 0 <= box.left <= box.right <= img.Length0
    requires 0 <= box.top <= box.bottom <= img.Length1
    requires out.Length0 == box.Width() && out.Length1 == box.Height()
    requires forall c, r :: 0 <= c < out.Length0 && 0 <= r < out.Length1 ==>
               out[c, r] == img[box.left + c, box.top + r]
    ensures Pixels(out) == Region(img, box)
  {
    var got, want := Pixels(out), Region(img, box);
    assert |got| == |want|;
    forall c | 0 <= c < |got| ensures got[c] == want[c] {
      CropColumn(img, box, out, c);
    }
  }

  /** One column of `CropIsRegion`. */
  lemma CropColumn(img: array2<RGB>, box: Box, out: array2<RGB>, c: int)
    requires 0 <= box.left <= box.right <= img.Length0
    requires 0 <= box.top <= box.bottom <= img.Length1
    requires out.Length0 == box.Width() && out.Length1 == box.Height()
    requires forall c, r :: 0 <= c < out.Length0 && 0 <= r < out.Length1 ==>
               out[c, r] == img[box.left + c, box.top + r]
    requires 0 <= c < out.Length0
    ensures Pixels(out)[c] == Region(img, box)[c]
  {
    var got, want := Pixels(out)[c], Region(img, box)[c];
    assert |got| == |want| == out.Length1;
    forall r | 0 <= r < |got| ensures got[r] == want[r] {
      assert got[r] == out[c, r];
    }
  }

  /** Pillow's `paste(src, (x, y))`: every canvas pixel covered by `src` placed
      with its top-left corner at `(x, y)` takes the covering pixel; parts of
      `src` that fall off the canvas are clipped. */
  method Paste(canvas: array2<RGB>, src: array2<RGB>, x: int, y: int)
    requires canvas != src
    modifies canvas
    ensures forall c, r :: 0 <= c < canvas.Length0 && 0 <= r < canvas.Length1 ==>
              canvas[c, r] == if x <= c < x + src.Length0 && y <= r < y + src.Length1
                              then src[c - x, r - y] else old(canvas[c, r])
  {
    var r := 0;
    while r < canvas.Length1
      invariant 0 <= r <= canvas.Length1
      invariant forall c', r' :: 0 <= c' < canvas.Length0 && 0 <= r' < canvas.Length1 ==>
                  canvas[c', r'] == if r' < r && x <= c' < x + src.Length0 && y <= r' < y + src.Length1
                                    then src[c' - x, r' - y] else old(canvas[c', r'])
    {
      var c := 0;
      while c < canvas.Length0
        invariant 0 <= c <= canvas.Length0
        invariant forall c', r' :: 0 <= c' < canvas.Length0 && 0 <= r' < canvas.Length1 ==>
                    canvas[c', r'] == if (r' < r || (r' == r && c' < c)) &&
                                         x <= c' < x + src.Length0 && y <= r' < y + src.Length1
                                      then src[c' - x, r' - y] else old(canvas[c', r'])
      {
        if x <= c < x + src.Length0 && y <= r < y + src.Length1 {
          canvas[c, r] := src[c - x, r - y];
        }
        c := c + 1;
      }
      r := r + 1;
    }
  }

  /** The recolour step's parameters: rows `[rowStart, rowEnd)` and the
      channel threshold below which a pixel counts as near-black. */
  datatype Band = Band(rowStart: nat, rowEnd: int, threshold: int)

  /** The band and threshold `process_image` uses. */
  const DefaultBand := Band(45, 215, 50)

  /** All three channels are below the threshold. */
  predicate NearBlack(p: RGB, threshold: int)
  {
    p.r < threshold && p.g < threshold && p.b < threshold
  }

  /** Row `row` of an image `height` rows tall is visited by the loop
      `for row in range(rowStart, rowEnd): if row < height`. */
  predicate InBand(row: int, band: Band, height: int)
  {
    band.rowStart <= row < band.rowEnd && row < height
  }

  /** The value the recolour step gives the pixel `p` found in row `row`. */
  function RecolorPixel(p: RGB, row: int, band: Band, height: int): (q: RGB)
  {
    if InBand(row, band, height) && NearBlack(p, band.threshold) then Red else p
  }

  /** Recolouring is idempotent: a pixel turned red stays red, and a pixel
      left alone is left alone again. */
  lemma RecolorIdempotent(p: RGB, row: int, band: Band, height: int)
    ensures RecolorPixel(RecolorPixel(p, row, band, height), row, band, height)
         == RecolorPixel(p, row, band, height)
  {
  }

  /** Recolouring changes a pixel exactly when it lies in the band, is
      near-black and is not already red, and the change is always to red. */
  lemma RecolorChangesExactlyBandNearBlack(p: RGB, row: int, band: Band, height: int)
    ensures RecolorPixel(p, row, band, height) != p <==>
              InBand(row, band, height) && NearBlack(p, band.threshold) && p != Red
    ensures RecolorPixel(p, row, band, height) == p || RecolorPixel(p, row, band, height) == Red
  {
  }

  /** For any threshold up to 255, the default 50 among them, red is not
      near-black, so a second pass does not even take the red branch for a
      pixel the first pass turned red. */
  lemma RedIsNotNearBlack(threshold: int)
    requires threshold <= 255
    ensures !NearBlack(Red, threshold)
  {
  }

  /** An image no taller than the band start is left unchanged. */
  lemma RecolorShortImageNoOp(p: RGB, row: int, band: Band, height: int)
    requires 0 <= row < height <= band.rowStart
    ensures RecolorPixel(p, row, band, height) == p
  {
  }

  /** The recolour loop of `process_image`, in place on the pixel buffer. */
  method RecolorBand(img: array2<RGB>, band: Band)
    modifies img
    ensures forall c, r :: 0 <= c < img.Length0 && 0 <= r < img.Length1 ==>
              img[c, r] == RecolorPixel(old(img[c, r]), r, band, img.Length1)
  {
    var row := band.rowStart;
    while row < band.rowEnd
      invariant band.rowStart <= row
      invariant forall c, r :: 0 <= c < img.Length0 && 0 <= r < img.Length1 ==>
                  img[c, r] == if r < row then RecolorPixel(old(img[c, r]), r, band, img.Length1)
                               else old(img[c, r])
    {
      if row < img.Length1 {
        var col := 0;
        while col < img.Length0
          invariant 0 <= col <= img.Length0
          invariant forall c, r :: 0 <= c < img.Length0 && 0 <= r < img.Length1 ==>
                      img[c, r] == if r < row || (r == row && c < col)
                                   then RecolorPixel(old(img[c, r]), r, band, img.Length1)
                                   else old(img[c, r])
        {
          var p := img[col, row];
          if NearBlack(p, band.threshold) {
            img[col, row] := Red;
          }
          col := col + 1;
        }
      }
      row := row + 1;
    }
  }

  /** Pillow's `rotate(90, expand=True)`: a quarter turn counter-clockwise
      into a new image whose width and height are swapped. Source pixel
      `(c, r)` lands at `(r, W - 1 - c)`, so the right edge becomes the top. */
  method Rotate90(src: array2<RGB>) returns (dst: array2<RGB>)
    ensures fresh(dst)
    ensures dst.Length0 == src.Length1 && dst.Length1 == src.Length0
    ensures forall c, r :: 0 <= c < src.Length0 && 0 <= r < src.Length1 ==>
              dst[r, src.Length0 - 1 - c] == src[c, r]
    ensures forall i, j :: 0 <= i < dst.Length0 && 0 <= j < dst.Length1 ==>
              dst[i, j] == src[src.Length0 - 1 - j, i]
  {
    var w := src.Length0;
    dst := new RGB[src.Length1, w];
    var r := 0;
    while r < src.Length1
      invariant 0 <= r <= src.Length1
      invariant forall c', r' :: 0 <= c' < w && 0 <= r' < r ==> dst[r', w - 1 - c'] == src[c', r']
    {
      var c := 0;
      while c < w
        invariant 0 <= c <= w
        invariant forall c', r' :: 0 <= c' < w && 0 <= r' < r ==> dst[r', w - 1 - c'] == src[c', r']
        invariant forall c' :: 0 <= c' < c ==> dst[r, w - 1 - c'] == src[c', r]
      {
        dst[r, w - 1 - c] := src[c, r];
        c := c + 1;
      }
      r := r + 1;
    }
    forall i, j | 0 <= i < dst.Length0 && 0 <= j < dst.Length1
      ensures dst[i, j] == src[w - 1 - j, i]
    {
      assert dst[i, w - 1 - (w - 1 - j)] == src[w - 1 - j, i];
    }
  }

  /** Running the recolour loop a second time changes nothing: after two
      passes every pixel is what one pass made of it. */
  method RecolorBandTwice(img: array2<RGB>, band: Band)
    modifies img
    ensures forall c, r :: 0 <= c < img.Length0 && 0 <= r < img.Length1 ==>
              img[c, r] == RecolorPixel(old(img[c, r]), r, band, img.Length1)
  {
    RecolorBand(img, band);
    label Once:
    RecolorBand(img, band);
    forall c, r | 0 <= c < img.Length0 && 0 <= r < img.Length1
      ensures img[c, r] == RecolorPixel(old(img[c, r]), r, band, img.Length1)
    {
      assert old@Once(img[c, r]) == RecolorPixel(old(img[c, r]), r, band, img.Length1);
      RecolorIdempotent(old(img[c, r]), r, band, img.Length1);
    }
  }
}
