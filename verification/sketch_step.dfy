/**
  The sketch of a sharp vertical step from black to white: the pixels on
  either side of the step are drawn black, the flat pixels white.
 */
module SketchStep {
  import opened SketchSpec

  /** A 5x3 gray image, dark in its three left columns and bright in its two right ones. */
  const StepGray: seq<real> := [
    0.0, 0.0, 0.0, 255.0, 255.0,
    0.0, 0.0, 0.0, 255.0, 255.0,
    0.0, 0.0, 0.0, 255.0, 255.0]

  /** Left of the step the horizontal response is four times full brightness ... */
  lemma LeftOfStepX()
    ensures Conv(StepGray, 5, 7, SobelX, 9) == 1020.0
  {
  }

  /** ... and the vertical response is zero. */
  lemma LeftOfStepY()
    ensures Conv(StepGray, 5, 7, SobelY, 9) == 0.0
  {
  }

  lemma RightOfStepX()
    ensures Conv(StepGray, 5, 8, SobelX, 9) == 1020.0
  {
  }

  lemma RightOfStepY()
    ensures Conv(StepGray, 5, 8, SobelY, 9) == 0.0
  {
  }

  /** Two columns left of the step the neighbourhood is flat: both responses are zero. */
  lemma FlatX()
    ensures Conv(StepGray, 5, 6, SobelX, 9) == 0.0
  {
  }

  lemma FlatY()
    ensures Conv(StepGray, 5, 6, SobelY, 9) == 0.0
  {
  }

  /**
    The pixel just left of the step comes out black in all three colour
    channels, given a square root that is exact at the magnitude involved.
   */
  lemma LeftOfStepIsBlack(sqrt: real -> real)
    requires sqrt(1040400.0) == 1020.0
    ensures PixelShade(StepGray, 5, 3, sqrt, 7) == 0
    ensures var out := SketchImage(StepGray, 5, 3, sqrt);
      out[4 * 7] == out[4 * 7 + 1] == out[4 * 7 + 2] == 0
  {
    LeftOfStepX();
    LeftOfStepY();
    assert Interior(5, 3, 7);
    assert 1020.0 * 1020.0 + 0.0 * 0.0 == 1040400.0;
    StrongEdgeIsBlack(StepGray, 5, 3, sqrt, 7, 1020.0, 0.0);
    PixelIsOpaqueGray(StepGray, 5, 3, sqrt, 7);
  }

  /** So does the pixel just right of it. */
  lemma RightOfStepIsBlack(sqrt: real -> real)
    requires sqrt(1040400.0) == 1020.0
    ensures PixelShade(StepGray, 5, 3, sqrt, 8) == 0
    ensures var out := SketchImage(StepGray, 5, 3, sqrt);
      out[4 * 8] == out[4 * 8 + 1] == out[4 * 8 + 2] == 0
  {
    RightOfStepX();
    RightOfStepY();
    assert Interior(5, 3, 8);
    assert 1020.0 * 1020.0 + 0.0 * 0.0 == 1040400.0;
    StrongEdgeIsBlack(StepGray, 5, 3, sqrt, 8, 1020.0, 0.0);
    PixelIsOpaqueGray(StepGray, 5, 3, sqrt, 8);
  }

  /** The interior pixel away from the step, where the image is flat, stays white. */
  lemma AwayFromStepIsWhite(sqrt: real -> real)
    requires sqrt(0.0) == 0.0
    ensures PixelShade(StepGray, 5, 3, sqrt, 6) == White
    ensures SketchImage(StepGray, 5, 3, sqrt)[4 * 6] == White
  {
    FlatX();
    FlatY();
    assert Interior(5, 3, 6);
    NoGradientIsWhite(StepGray, 5, 3, sqrt, 6);
    PixelIsOpaqueGray(StepGray, 5, 3, sqrt, 6);
  }
}
