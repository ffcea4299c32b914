/** The per-cell test of `BFFormatter.format` (bfformatter.py lines 59-67):
    a cell is "ink", a candidate for a token, when its luminance lies on the
    chosen side of one half. Luminance is an exact real here; the model does
    not compute it from pixels. */
module Threshold {

  /** The factor `inv` of lines 59-62: -1 for an inverted image, +1 otherwise. */
  function Orientation(invert: bool): (inv: real)
    ensures inv == 1.0 || inv == -1.0
    ensures inv < 0.0 <==> invert
  {
    if invert then -1.0 else 1.0
  }

  /** The test `inv*Y[idx] < inv*0.5` of line 67: dark cells take tokens, or
      light ones when the image is inverted, and the midpoint 0.5 never does. */
  predicate IsInk(luma: real, invert: bool)
    ensures IsInk(luma, invert) <==> (if invert then luma > 0.5 else luma < 0.5)
  {
    Orientation(invert) * luma < Orientation(invert) * 0.5
  }

  /** A cell of luminance exactly one half is whitespace either way. */
  lemma MidpointIsBlank(invert: bool)
    ensures !IsInk(0.5, invert)
  {
  }

  /** The test for every cell of a row-major luminance raster. */
  function InkMask(luma: seq<real>, invert: bool): (ink: seq<bool>)
    ensures |ink| == |luma|
    ensures forall i :: 0 <= i < |luma| ==>
              (ink[i] <==> (if invert then luma[i] > 0.5 else luma[i] < 0.5))
  {
    seq(|luma|, i requires 0 <= i < |luma| => IsInk(luma[i], invert))
  }

  /** The photographic negative of a luminance raster. */
  function Negative(luma: seq<real>): (neg: seq<real>)
    ensures |neg| == |luma|
    ensures forall i :: 0 <= i < |luma| ==> neg[i] + luma[i] == 1.0
  {
    seq(|luma|, i requires 0 <= i < |luma| => 1.0 - luma[i])
  }

  /** Inverting selects exactly the cells the plain test selects on the
      negative image. */
  lemma InvertIsNegative(luma: seq<real>)
    ensures InkMask(luma, true) == InkMask(Negative(luma), false)
  {
  }
}
