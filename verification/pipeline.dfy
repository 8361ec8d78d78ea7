/** The module's `process`: parse the class list, tile the input if it is
    larger than the model, allocate the output stack, run the slice loop,
    and stitch the filled stack back to the input's size. */
module RunOnnxModel {
  import opened Wrappers
  import opened Errors
  import opened Hyperstack
  import opened Tensors
  import opened TensorCodec
  import opened ClassList
  import opened Tiling
  import opened SliceLoop

  /** The module parameters the pipeline reads, already typed: the output
      bit depth, whether only some classes are output, the comma-separated
      class text, and the tile overlap in pixels. */
  datatype Params = Params(bitDepth: BitDepth, subsetOfClasses: bool, classes: string, tileOverlap: int)

  /** The input is smaller than the model on both axes, so tiling yields no
      image. */
  predicate TooSmall<T>(input: Image<T>, model: ModelShape) {
    Decide(input.width, input.height, model.input.width, model.input.height) == Undersized
  }

  /** The whole run. `tiledOutput` is the filled stack before stitching.
      Errors arrive in the order the source raises them: an unparsable class
      first, then an input too small to tile, then the slice loop's. */
  method Process<T(!new)>(input: Image<T>, params: Params, model: ModelShape, tiler: Tiler<T>,
                          infer: Tensor<T> -> Tensor<T>, quant: (BitDepth, T) -> T, zero: T)
    returns (r: Result<Image<T>, Error>, tiledOutput: Image<T>, progress: seq<(nat, nat)>)
    requires Valid(input) && InferFits(infer, model)
    requires TileImage(input, model.input, params.tileOverlap, tiler).Some? ==>
               Valid(TileImage(input, model.input, params.tileOverlap, tiler).value)
    ensures ParseClassList(params.subsetOfClasses, params.classes).Failure? ==>
              r == Failure(ParseClassList(params.subsetOfClasses, params.classes).error)
    ensures ParseClassList(params.subsetOfClasses, params.classes).Success? && TooSmall(input, model) ==>
              r == Failure(NullImage)
    ensures r.Failure? ==> progress == []
    ensures r.Failure? && ParseClassList(params.subsetOfClasses, params.classes).Success? && !TooSmall(input, model) ==>
              var tiled := TileImage(input, model.input, params.tileOverlap, tiler).value;
              var classList := ParseClassList(params.subsetOfClasses, params.classes).value;
              && (!Covers(tiled, model.input) ==> r == Failure(ShapeMismatch))
              && (Covers(tiled, model.input) && !Readable(model.output, classList) ==>
                    r == Failure(UnreadableClass(model.output, classList)))
              && (Covers(tiled, model.input) && Readable(model.output, classList) ==> r == Failure(WrongDimensions))
    ensures r.Success? <==>
              && ParseClassList(params.subsetOfClasses, params.classes).Success?
              && !TooSmall(input, model)
              && var tiled := TileImage(input, model.input, params.tileOverlap, tiler).value;
                 var job := Job(tiled, model, params.bitDepth,
                                ParseClassList(params.subsetOfClasses, params.classes).value, infer, quant);
                 tiled.slices * tiled.frames == 0 || Compatible(job)
    ensures r.Success? ==>
              && var tiled := TileImage(input, model.input, params.tileOverlap, tiler).value;
                 var classList := ParseClassList(params.subsetOfClasses, params.classes).value;
                 var job := Job(tiled, model, params.bitDepth, classList, infer, quant);
                 && Valid(tiledOutput)
                 && tiledOutput.channels == OutputChannelCount(model.output.channels, classList)
                 && tiledOutput.width == tiled.width && tiledOutput.height == tiled.height
                 && tiledOutput.slices == tiled.slices && tiledOutput.frames == tiled.frames
                 && (forall c: nat, z: nat, t: nat
                       | c < tiledOutput.channels && z < tiledOutput.slices && t < tiledOutput.frames ::
                       PlaneFilled(job, tiledOutput, c, z, t))
                 && |progress| == tiled.slices * tiled.frames
                 && (forall i | 0 <= i < |progress| :: progress[i] == (i + 1, tiled.slices * tiled.frames))
                 && r.value == StitchImage(tiledOutput, params.tileOverlap, input.width, input.height, tiler)
  {
    tiledOutput := input;
    progress := [];
    var parsed := ParseClassList(params.subsetOfClasses, params.classes);
    if parsed.Failure? {
      return Failure(parsed.error), tiledOutput, progress;
    }
    var tiled := TileImage(input, model.input, params.tileOverlap, tiler);
    if tiled.None? {
      // The source passes null on and fails when reading its size.
      return Failure(NullImage), tiledOutput, progress;
    }
    var stack := CreateEmptyOutputImage(tiled.value, model.output.channels, parsed.value, zero);
    var job := Job(tiled.value, model, params.bitDepth, parsed.value, infer, quant);
    var filled, visited;
    filled, visited, progress := ProcessSlices(job, stack);
    if filled.Failure? {
      return Failure(filled.error), tiledOutput, progress;
    }
    tiledOutput := filled.value;
    r := Success(StitchImage(tiledOutput, params.tileOverlap, input.width, input.height, tiler));
  }
}
