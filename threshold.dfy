/**
 * The fixed-level binary threshold the detector applies to every frame
 * (OpenCV's THRESH_BINARY with a maximum value of 255): a sample strictly
 * brighter than the threshold becomes 255, every other sample becomes 0.
 */
module Threshold {

  /** A single-channel frame: rows of non-negative intensity samples. */
  type Frame = seq<seq<nat>>

  /** Output value of a foreground pixel (the `maxval` argument). */
  const Foreground: nat := 255
  /** Output value of a background pixel. */
  const Background: nat := 0

  /** Every row has the same length. */
  predicate IsRectangular(f: Frame) {
    forall i, j :: 0 <= i < |f| && 0 <= j < |f| ==> |f[i]| == |f[j]|
  }

  /** The two frames have the same number of rows and each row the same width. */
  predicate SameShape(f: Frame, g: Frame) {
    |f| == |g| && forall i :: 0 <= i < |f| ==> |f[i]| == |g[i]|
  }

  /** Every sample is background. */
  predicate IsBlank(m: Frame) {
    forall i, j :: 0 <= i < |m| && 0 <= j < |m[i]| ==> m[i][j] == Background
  }

  /** Every sample is foreground. */
  predicate IsFull(m: Frame) {
    forall i, j :: 0 <= i < |m| && 0 <= j < |m[i]| ==> m[i][j] == Foreground
  }

  /** Thresholds one row of samples. */
  function BinarizeRow(row: seq<nat>, threshold: int): (out: seq<nat>)
    ensures |out| == |row|
    ensures forall j :: 0 <= j < |row| ==>
      out[j] == (if row[j] > threshold then Foreground else Background)
  {
    if row == [] then []
    else
      BinarizeRow(row[..|row| - 1], threshold)
        + [if row[|row| - 1] > threshold then Foreground else Background]
  }

  /** Thresholds a whole frame, row by row; the mask has the frame's shape. */
  function Binarize(frame: Frame, threshold: int): (mask: Frame)
    ensures SameShape(frame, mask)
    ensures forall i, j :: 0 <= i < |frame| && 0 <= j < |frame[i]| ==>
      mask[i][j] == (if frame[i][j] > threshold then Foreground else Background)
  {
    if frame == [] then []
    else Binarize(frame[..|frame| - 1], threshold) + [BinarizeRow(frame[|frame| - 1], threshold)]
  }

  /** A rectangular frame gives a rectangular mask. */
  lemma BinarizeKeepsRectangular(frame: Frame, threshold: int)
    requires IsRectangular(frame)
    ensures IsRectangular(Binarize(frame, threshold))
  {
  }

  /** A frame with no sample above the threshold gives an all-background mask, and only such a frame does. */
  lemma BlankMaskIffNothingBright(frame: Frame, threshold: int)
    ensures IsBlank(Binarize(frame, threshold)) <==>
      forall i, j :: 0 <= i < |frame| && 0 <= j < |frame[i]| ==> frame[i][j] <= threshold
  {
  }

  /** A frame whose every sample is above the threshold gives an all-foreground mask, and only such a frame does. */
  lemma FullMaskIffAllBright(frame: Frame, threshold: int)
    ensures IsFull(Binarize(frame, threshold)) <==>
      forall i, j :: 0 <= i < |frame| && 0 <= j < |frame[i]| ==> frame[i][j] > threshold
  {
  }
}
