/**
 * The inference step: read the input image, check that it has the model's
 * square input size, hand the tensor to the inference engine and turn the
 * engine's planar output back into an interleaved image for the encoder.
 * The engine itself is a parameter: a function from input tensor to output
 * tensor.
 */
module Inference {
  import opened Wrappers
  import opened Layout
  import opened ImageFile

  /** The side of the square images the style model takes and returns. */
  const ModelSide: nat := 720

  /** The two size checks exclude each other: no decoded image that
      read_image_file accepts is ModelSide by ModelSide. */
  lemma NoImagePassesBothGuards(h: nat, w: nat)
    requires DecodedSize(h, w) == ExpectedSize
    ensures !(h == ModelSide && w == ModelSide)
  {
  }

  /**
   * run_inference for a model of side `side`: -1 when reading fails or the
   * image is not side by side; otherwise the engine's output, converted back
   * to interleaved bytes, goes to the encoder, and the result is 0 exactly
   * when the encoder succeeds. With the shipped ModelSide every run fails.
   */
  method RunInference(side: nat, src: PngSource, engine: seq<real> -> seq<real>, writeSucceeds: bool)
    returns (ret: int, written: Option<seq<Byte>>)
    requires |src.pixels| == DecodedSize(src.height, src.width)
    requires forall t :: |engine(t)| == side * side * 3
    ensures ret == 0 || ret == -1
    ensures written.Some? <==> ReadSucceeds(src) && src.height == side && src.width == side
    ensures written.Some? ==>
              written.value == HwcOf(engine(Normalized(ChwOf(src.pixels, side * side), ExpectedSize)), side * side)
    ensures ret == 0 <==> written.Some? && writeSucceeds
    ensures side == ModelSide ==> ret == -1 && written == None
  {
    var status, inputHeight, inputWidth, modelInput, modelInputEleCount := ReadImageFile(src);
    if status != 0 {
      return -1, None;
    }
    if inputHeight != side || inputWidth != side {
      return -1, None;
    }
    var outputTensor := engine(modelInput[..]);
    var outputTensorData := new real[|outputTensor|](k requires 0 <= k < |outputTensor| => outputTensor[k]);
    assert outputTensorData[..] == outputTensor;
    var outputImageData := ChwToHwc(outputTensorData, side, side);
    written := Some(outputImageData[..]);
    ret := if writeSucceeds then 0 else -1;
  }
}
