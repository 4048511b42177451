/** Pixels of an RGB-mode raster image.
    An image is an `array2<RGB>` indexed `[column, row]`: `Length0` is its
    width and `Length1` its height, as with Pillow's `pixels[x, y]`. */
module Image {

  /** One 8-bit colour channel. */
  type Channel = x: int | 0 <= x < 256

  /** A pixel as its (R, G, B) triple. */
  datatype RGB = RGB(r: Channel, g: Channel, b: Channel)

  /** The fill colour of a new canvas, Pillow's 'white'. */
  const White := RGB(255, 255, 255)

  /** The colour near-black band pixels are rewritten to. */
  const Red := RGB(255, 0, 0)
}
