/** Frame extraction after the image library has done its part: each frame,
    already resized to the target size and converted to 8-bit luminance, is
    turned into a monochrome frame by comparing every pixel with a threshold. */
module Threshold {

  /** A luminance value of the library's 8-bit greyscale mode: 0 (black) to 255 (white). */
  type Luma = x: int | 0 <= x <= 255

  /** A greyscale frame, row by row: frame[y][x] is the pixel at column x of row y. */
  type GreyFrame = seq<seq<Luma>>

  /** A monochrome frame, row by row: true is a pixel that is on. */
  type Bitmap = seq<seq<bool>>

  /** The point function of the extractor: 0 when the luminance is below the
      threshold, 1 otherwise. */
  function PixelOn(luma: int, threshold: int): (on: bool)
    ensures on <==> luma >= threshold
  {
    if luma < threshold then false else true
  }

  /** A luminance equal to the threshold is on; one less is off. */
  lemma ThresholdBoundary(threshold: int)
    ensures PixelOn(threshold, threshold)
    ensures !PixelOn(threshold - 1, threshold)
  {
  }

  /** Applies the point function to every pixel of a frame, keeping its shape. */
  function Binarize(frame: GreyFrame, threshold: int): (bw: Bitmap)
    ensures |bw| == |frame|
    ensures forall y :: 0 <= y < |frame| ==> |bw[y]| == |frame[y]|
    ensures forall y, x :: 0 <= y < |frame| && 0 <= x < |frame[y]| ==>
              (bw[y][x] <==> frame[y][x] >= threshold)
  {
    seq(|frame|, y requires 0 <= y < |frame| =>
      seq(|frame[y]|, x requires 0 <= x < |frame[y]| => PixelOn(frame[y][x], threshold)))
  }

  /** A threshold at or below the darkest pixel of a frame turns every pixel on. */
  lemma ThresholdAtOrBelowMinAllOn(frame: GreyFrame, threshold: int)
    requires forall y, x :: 0 <= y < |frame| && 0 <= x < |frame[y]| ==> threshold <= frame[y][x]
    ensures forall y, x :: 0 <= y < |frame| && 0 <= x < |frame[y]| ==> Binarize(frame, threshold)[y][x]
  {
  }

  /** A threshold above the brightest pixel of a frame turns every pixel off. */
  lemma ThresholdAboveMaxAllOff(frame: GreyFrame, threshold: int)
    requires forall y, x :: 0 <= y < |frame| && 0 <= x < |frame[y]| ==> frame[y][x] < threshold
    ensures forall y, x :: 0 <= y < |frame| && 0 <= x < |frame[y]| ==> !Binarize(frame, threshold)[y][x]
  {
  }

  /** Thresholds outside the luminance range are accepted: at or below 0 every
      pixel of every frame is on, above 255 every pixel is off. */
  lemma ThresholdOutOfRange(frame: GreyFrame, threshold: int)
    ensures threshold <= 0 ==>
      forall y, x :: 0 <= y < |frame| && 0 <= x < |frame[y]| ==> Binarize(frame, threshold)[y][x]
    ensures threshold > 255 ==>
      forall y, x :: 0 <= y < |frame| && 0 <= x < |frame[y]| ==> !Binarize(frame, threshold)[y][x]
  {
  }

  /** The extractor's loop over the frames of the animation: one monochrome
      frame per greyscale frame, in the same order. */
  method GifToBitmaps(greyFrames: seq<GreyFrame>, threshold: int) returns (frames: seq<Bitmap>)
    ensures |frames| == |greyFrames|
    ensures forall i :: 0 <= i < |greyFrames| ==> frames[i] == Binarize(greyFrames[i], threshold)
  {
    frames := [];
    for i := 0 to |greyFrames|
      invariant |frames| == i
      invariant forall j :: 0 <= j < i ==> frames[j] == Binarize(greyFrames[j], threshold)
    {
      var bw := Binarize(greyFrames[i], threshold);
      frames := frames + [bw];
    }
  }
}
