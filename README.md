# Daily image transform

This project models the image transform of the daily-image scripts. The
transform is `process_image`, which exists twice: in `scripts/process_image.py`
and in the stand-alone `resize_single2.py`. The second copy only adds opening
the input file and saving the result. The transform works in five steps:

1. Crop fixed left/right and top/bottom margins with the box `(l, t, W-l, H-t)`.
2. Compute the scale `min(ow/cw, oh/ch)` and resize the cropped image to
   `(int(cw*s), int(ch*s))`.
3. Paste the result, centred at `((ow-nw)//2, (oh-nh)//2)`, on a white
   `ow x oh` canvas.
4. Rewrite to red `(255, 0, 0)` every pixel in rows `[45, min(215, height))`
   whose three channels are all below 50.
5. Rotate the canvas 90 degrees counter-clockwise, expanding it to `oh x ow`.

Layout:

- `image.dfy` (`Image`): RGB pixels with 8-bit channels. An image is an
  `array2<RGB>` indexed `[column, row]`, like Pillow's `pixels[x, y]`.
- `geometry.dfy` (`Geometry`): the crop box, the exact scale, the scaled
  size, the centering offsets and the whole layout, as pure functions with
  lemmas.
- `transform.dfy` (`Transform`): the buffer steps as methods over `array2`.
  `Crop` and `Rotate90` build new images. `Paste` and `RecolorBand` update the
  canvas in place, and their loop invariants say which part is done.
- `pipeline.dfy` (`Pipeline`): `ProcessImage` chains the steps. Its contract
  gives every output pixel as a function of the layout and of the input's
  pixels inside the crop box, passed through the opaque resize filter.
- `resize_single2.dfy` (`ResizeSingle2`): the file-based copy of the transform.

The scale is modelled exactly, not in floating point. `FitRatio` picks the
horizontal ratio `ow/cw` unless `oh*cw < ow*ch`. This matches Python's `min`,
which returns its first argument on a tie.

The band and the threshold are parameters (`Transform.Band`).
`Transform.DefaultBand` holds the script's values 45, 215 and 50. The comments
at `scripts/process_image.py:91` and `:93` speak of rows 45-50, but the loop
runs over `range(45, 215)`. The model follows the loop.

The code never checks the crop margins, so valid margins (each non-negative
and under half its dimension) are a precondition.

When the canvas is one pixel wider than the scaled image, the offset is 0. The
image then covers the left column, and the one-pixel margin is on the right
(`Pipeline.OneColumnMarginIsOnTheRight`).

## Model

| member | source | states |
|---|---|---|
| `Geometry.CropBox` | scripts/process_image.py:57-65 | The box is `(W-2l) x (H-2t)`. It is a non-empty box inside the image exactly when the margins are valid (both directions). The same box is built at resize_single2.py:24-32. |
| `Geometry.FitRatio` | scripts/process_image.py:73-75 | The chosen scale fraction is at most `ow/cw` and at most `oh/ch`, and equals one of them, so it is their minimum. Same lines at resize_single2.py:40-42. |
| `Geometry.ScaledSize` | scripts/process_image.py:73-79 | Each scaled side is the floor of the exactly scaled cropped side: `nw*den <= cw*num < (nw+1)*den`, and likewise for the height. |
| `Geometry.ScaledSizeFits` | scripts/process_image.py:73-79 | The scaled size never exceeds the output bounds: `nw <= ow` and `nh <= oh`. Same at resize_single2.py:40-46. |
| `Geometry.ScaledSizeTouches` | scripts/process_image.py:73-79 | The scaled size touches at least one bound: `nw == ow` or `nh == oh`. Same at resize_single2.py:40-46. |
| `Geometry.ScaledSizeUnscaled` | scripts/process_image.py:73-79 | A cropped image that already has the output size keeps its size (scale 1). |
| `Geometry.CenterOffset` | scripts/process_image.py:85-86 | The far margin minus the near margin is 0 or 1. When the inner extent fits, the offset is non-negative and the inner extent ends inside the outer one. |
| `Geometry.PlanLayout` | scripts/process_image.py:57-89 | For valid margins, the crop box is `(W-2l) x (H-2t)` inside the image. The pasted rectangle lies inside the `ow x oh` canvas and fills it on at least one axis. Same steps at resize_single2.py:24-56. |
| `Geometry.DefaultLayout` | scripts/process_image.py:39-89 | A 420 x 536 input with the defaults (300 x 400, margins 60 and 68) crops to 300 x 400 at box `(60, 68, 360, 468)`. It is not rescaled and is pasted at `(0, 0)`. |
| `Transform.Crop` | scripts/process_image.py:64-65 | The result is a new image of `box.Width() x box.Height()`, and its pixel `(c, r)` is the source pixel `(left+c, top+r)`. |
| `Transform.CropIsRegion` | scripts/process_image.py:64-65 | As a value, the cropped image's pixels are exactly the source's pixels inside the box (`Region`), so a resize of the cropped image sees only the box's contents. |
| `Transform.Paste` | scripts/process_image.py:89 | Each canvas pixel under the pasted image at `(x, y)` takes the matching image pixel. Every other canvas pixel keeps its old value, so the white background stays white. Same at resize_single2.py:56. |
| `Pipeline.ComposeCanvas` | scripts/process_image.py:70-89 | A new `ow x oh` canvas: every pixel covered by the scaled image placed at `(x, y)` is that image's pixel, and every other pixel is white. Same at resize_single2.py:37-56. |
| `Transform.RecolorBand` | scripts/process_image.py:92-99 | In place, each pixel in rows `[rowStart, min(rowEnd, height))` with all channels below the threshold becomes `(255, 0, 0)`. Every other pixel is unchanged. Same loop at resize_single2.py:59-66. |
| `Transform.RecolorChangesExactlyBandNearBlack` | scripts/process_image.py:93-99 | A pixel changes exactly when it is in the band, near-black and not already red. When it changes, it becomes red. |
| `Transform.RecolorShortImageNoOp` | scripts/process_image.py:93-94 | In an image no taller than the band start, recolouring leaves every pixel unchanged. |
| `Transform.RecolorIdempotent` | scripts/process_image.py:98-99 | Recolouring a recoloured pixel changes nothing, so a second pass of `RecolorBand` leaves the image as the first left it. Same at resize_single2.py:65-66. |
| `Transform.RecolorBandTwice` | scripts/process_image.py:92-99 | Running the recolour loop twice leaves every pixel as one pass makes it, so the second pass is a no-op. Same at resize_single2.py:59-66. |
| `Transform.RedIsNotNearBlack` | scripts/process_image.py:98-99 | For any threshold up to 255, including the default 50, red is not near-black. |
| `Transform.Rotate90` | scripts/process_image.py:101-102 | The result is a new `H x W` image. Source pixel `(c, r)` is at `(r, W-1-c)`, and destination pixel `(i, j)` comes from `(W-1-j, i)`. This is a bijection, counter-clockwise. Same at resize_single2.py:70-71. |
| `Pipeline.RecolorAndRotate` | scripts/process_image.py:92-102 | Given a canvas that shows the planned paste, the canvas is left recoloured in the default band, pixel by pixel. The result is a new image: that canvas recoloured in the default band and turned a quarter turn: `oh` wide, `ow` tall, pixel `(i, j)` from canvas pixel `(ow-1-j, i)`. |
| `Pipeline.ProcessImage` | scripts/process_image.py:39-105 | The output is a new image, `oh` wide and `ow` tall. Its pixel `(i, j)` is canvas pixel `(ow-1-j, i)` after the default band recolour. That canvas pixel is white outside the planned rectangle. Inside it, the pixel is the opaque resize, to the planned scaled size, of the input's pixels inside the crop box. |
| `Pipeline.OneColumnMarginIsOnTheRight` | scripts/process_image.py:85-89 | When the canvas is one column wider than the scaled image, the image fills the canvas height and sits at `(0, 0)`. Every pixel of the left column is the resized image and every pixel of the right column stays white. |
| `ResizeSingle2.ProcessFile` | resize_single2.py:3-78 | The image handed to `save` (and returned at resize_single2.py:78) is a new image. It is the same transform of the opened image, with the same size and per-pixel contract as `Pipeline.ProcessImage`. |

## Left out

- Lanczos resampling (`scripts/process_image.py:80`, `resize_single2.py:47`) is library numerics. It is an opaque parameter `resize` applied to the cropped pixels and the scaled size. Only the size of the resized image is computed here.
- Geometry.ScaledSize: the scale is exact, not Python's floating-point `ow/cw`. For some sizes, `int(cw * (ow/cw))` in floating point can be one below the exact floor computed here.
- Pillow's behaviour for invalid crop margins (`2*l >= W`, `2*t >= H`, or negative margins) is not modelled. Valid margins are a precondition of `ProcessImage`.
- Pillow's `resize` raises an error when a scaled side rounds down to 0. The model does not raise there: it pastes an empty image and returns the white canvas, recoloured and rotated.
- `Image.new` raises an error for a negative output size. `ProcessImage` requires `outW >= 0 && outH >= 0` instead. Both scripts always pass 300 and 400.
- Transform.Paste: requires the canvas and the pasted image to be distinct arrays. The transform always pastes a separate image.
- Image modes other than RGB, and the mode conversion Pillow does on paste, are not modelled.
- URL construction from the clock, the HTTP download and decode, the JPEG save at quality 99, the file open, directory setup, `main`, the `__main__` blocks and all printing are I/O or plumbing. The decoded image is a parameter and the image to save is the result.
