/** The stand-alone script's `process_image`: the same transform between
    opening an input file and saving the result. */
module ResizeSingle2 {
  import opened Image
  import opened Geometry
  import opened Transform
  import opened Pipeline

  /** The transform applied to the image read from the input path; the result
      is what the script saves to the output path. The image is given decoded
      and the saved image is returned, since file access is not modelled. */
  method ProcessFile(input: array2<RGB>, resize: Resize,
                     outW: int, outH: int, leftRight: int, topBottom: int)
    returns (saved: array2<RGB>)
    requires ValidMargins(input.Length0, input.Length1, leftRight, topBottom)
    requires outW >= 0 && outH >= 0
    ensures fresh(saved)
    ensures saved.Length0 == outH && saved.Length1 == outW
    ensures var layout := PlanLayout(input.Length0, input.Length1, outW, outH, leftRight, topBottom);
      forall i, j :: 0 <= i < outH && 0 <= j < outW ==>
        saved[i, j] == OutputPixel(layout, resize, Region(input, layout.crop), outW, outH, i, j)
  {
    saved := ProcessImage(input, resize, outW, outH, leftRight, topBottom);
  }
}
