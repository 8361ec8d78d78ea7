/** The per-(slice, frame) inference loop: allocate the output stack, then
    for every depth slice z and, within it, every time frame t, encode the
    slice at (z, t), run the model, decode, and write the result into the
    stack at (z, t). */
module SliceLoop {
  import opened Wrappers
  import opened Errors
  import opened Hyperstack
  import opened Tensors
  import opened TensorCodec

  /** The model's declared input and output shapes, read once per run. */
  datatype ModelShape = ModelShape(input: Shape, output: Shape)

  /** The inference engine returns a tensor of the declared output shape for
      every tensor of the declared input shape. */
  ghost predicate InferFits<T(!new)>(infer: Tensor<T> -> Tensor<T>, model: ModelShape) {
    forall x :: Fits(x, model.input) ==> Fits(infer(x), model.output)
  }

  /** The order the loop visits coordinates in: z-major, then t. */
  function Row(z: nat, frames: nat): seq<(nat, nat)> {
    seq(frames, t => (z, t))
  }

  function Visits(slices: nat, frames: nat): seq<(nat, nat)> {
    if slices == 0 then [] else Visits(slices - 1, frames) + Row(slices - 1, frames)
  }

  lemma {:induction false} VisitsLength(slices: nat, frames: nat)
    ensures |Visits(slices, frames)| == slices * frames
  {
    if slices > 0 {
      VisitsLength(slices - 1, frames);
      assert (slices - 1) * frames + frames == slices * frames;
    }
  }

  /** Position z * frames + t holds (z, t): the visit order is z-major. */
  lemma {:induction false} VisitsAt(slices: nat, frames: nat, z: nat, t: nat)
    requires z < slices && t < frames
    ensures z * frames + t < |Visits(slices, frames)|
    ensures Visits(slices, frames)[z * frames + t] == (z, t)
  {
    VisitsLength(slices, frames);
    VisitsLength(slices - 1, frames);
    if z < slices - 1 {
      VisitsAt(slices - 1, frames, z, t);
    } else {
      assert z * frames + t == (slices - 1) * frames + t;
    }
  }

  /** Every visited coordinate is inside the stack. */
  lemma {:induction false} VisitsInRange(slices: nat, frames: nat)
    ensures forall i | 0 <= i < |Visits(slices, frames)| ::
              Visits(slices, frames)[i].0 < slices && Visits(slices, frames)[i].1 < frames
  {
    if slices > 0 {
      VisitsInRange(slices - 1, frames);
    }
  }

  /** No coordinate is visited twice. */
  lemma {:induction false} VisitsDistinct(slices: nat, frames: nat)
    ensures forall i, j | 0 <= i < j < |Visits(slices, frames)| ::
              Visits(slices, frames)[i] != Visits(slices, frames)[j]
  {
    if slices > 0 {
      VisitsDistinct(slices - 1, frames);
      VisitsInRange(slices - 1, frames);
      var prev := Visits(slices - 1, frames);
      var row := Row(slices - 1, frames);
      var all := prev + row;
      forall i, j | 0 <= i < j < |all| ensures all[i] != all[j] {
        if j >= |prev| && i < |prev| {
          assert all[i] == prev[i] && all[j] == row[j - |prev|];
        } else if i >= |prev| {
          assert all[i] == row[i - |prev|] && all[j] == row[j - |prev|];
        } else {
          assert all[i] == prev[i] && all[j] == prev[j];
        }
      }
    }
  }

  /** Every coordinate of the stack is visited; with VisitsDistinct and
      VisitsInRange, exactly once. */
  lemma VisitsCover(slices: nat, frames: nat, z: nat, t: nat)
    requires z < slices && t < frames
    ensures (z, t) in Visits(slices, frames)
  {
    VisitsAt(slices, frames, z, t);
  }

  /** Three slices and two frames are visited in six steps. */
  lemma VisitsThreeByTwo()
    ensures Visits(3, 2) == [(0, 0), (0, 1), (1, 0), (1, 1), (2, 0), (2, 1)]
  {
  }

  /** The empty output stack: width, height, slice and frame counts of the
      (tiled) input; as many channels as the decoder produces. */
  function CreateEmptyOutputImage<T>(input: Image<T>, outChannels: nat, classList: Option<seq<int>>, zero: T)
    : (r: Image<T>)
    ensures Valid(r)
    ensures r.channels == OutputChannelCount(outChannels, classList)
    ensures r.width == input.width && r.height == input.height
    ensures r.slices == input.slices && r.frames == input.frames
    ensures forall c: nat, x: nat, y: nat, z: nat, t: nat
              | c < r.channels && x < r.width && y < r.height && z < r.slices && t < r.frames ::
              Pixel(r, c, x, y, z, t) == zero
  {
    CreateHyperStack(OutputChannelCount(outChannels, classList), input.width, input.height,
                     input.slices, input.frames, zero)
  }

  /** The stack and a decoded slice agree on channel count whenever decoding
      succeeds: both take it from OutputChannelCount. */
  lemma AllocationMatchesDecode<T>(input: Image<T>, tensor: Tensor<T>, out: Shape, depth: BitDepth,
                                   classList: Option<seq<int>>, quant: (BitDepth, T) -> T, zero: T)
    requires Fits(tensor, out)
    requires Decode(tensor, out, depth, classList, quant).Success?
    ensures Decode(tensor, out, depth, classList, quant).value.channels
            == CreateEmptyOutputImage(input, out.channels, classList, zero).channels
  {
  }

  /** Copies every channel plane of a one-slice, one-frame image into
      position (c, z, t) of the stack; all other planes stay as they were.
      Each channel's write is where a plane of another width or height is
      rejected, so a slice without channels writes nothing and cannot fail. */
  method AddSliceToStack<T>(stack: Image<T>, slice: Image<T>, z: nat, t: nat) returns (r: Result<Image<T>, Error>)
    requires Valid(stack) && Valid(slice)
    requires slice.slices >= 1 && slice.frames >= 1
    requires slice.channels <= stack.channels && z < stack.slices && t < stack.frames
    ensures r.Success? <==> slice.channels == 0 || (slice.width == stack.width && slice.height == stack.height)
    ensures r.Failure? ==> r.error == WrongDimensions
    ensures r.Success? ==> Valid(r.value) && SameDims(r.value, stack)
    ensures r.Success? ==> forall c, z', t' | 0 <= c < stack.channels && 0 <= z' < stack.slices && 0 <= t' < stack.frames ::
              r.value.planes[c][z'][t'] ==
                if c < slice.channels && z' == z && t' == t then slice.planes[c][0][0]
                else stack.planes[c][z'][t']
  {
    var acc := stack;
    for c := 0 to slice.channels
      invariant Valid(acc) && SameDims(acc, stack)
      invariant c > 0 ==> slice.width == stack.width && slice.height == stack.height
      invariant forall c', z', t' | 0 <= c' < acc.channels && 0 <= z' < acc.slices && 0 <= t' < acc.frames ::
                  acc.planes[c'][z'][t'] ==
                    if c' < c && z' == z && t' == t then slice.planes[c'][0][0]
                    else stack.planes[c'][z'][t']
    {
      if slice.width != acc.width || slice.height != acc.height {
        return Failure(WrongDimensions);
      }
      acc := SetPlane(acc, c, z, t, slice.planes[c][0][0]);
    }
    r := Success(acc);
  }

  /** One run's fixed inputs: the image the loop runs over (tiled or not),
      the model's shapes, the output bit depth, the optional class list, the
      inference engine and the float rounding of the quantizer. */
  datatype Job<!T> = Job(
    tiled: Image<T>,
    model: ModelShape,
    depth: BitDepth,
    classList: Option<seq<int>>,
    infer: Tensor<T> -> Tensor<T>,
    quant: (BitDepth, T) -> T)

  ghost predicate Ready<T(!new)>(job: Job<T>) {
    Valid(job.tiled) && InferFits(job.infer, job.model)
  }

  /** The stack can take the decoded slices: the image covers the model
      input, every class index is readable, and the model's output plane has
      the image's width and height unless the decoded slices have no
      channel to write. */
  predicate Compatible<T>(job: Job<T>) {
    && Covers(job.tiled, job.model.input)
    && Readable(job.model.output, job.classList)
    && (|| OutputChannelCount(job.model.output.channels, job.classList) == 0
        || (job.model.output.width == job.tiled.width && job.model.output.height == job.tiled.height))
  }

  /** An empty class list decodes to slices with no channel, so nothing is
      written and the model's output size need not match the image's. */
  lemma NoChannelIsCompatible<T>(job: Job<T>)
    requires job.classList == Some([]) && Covers(job.tiled, job.model.input)
    ensures Compatible(job)
  {
  }

  /** Encode the slice at (z, t), run the model, decode. Whether this fails,
      and how, does not depend on (z, t). */
  function SliceOutput<T(!new)>(job: Job<T>, z: nat, t: nat): (r: Result<Image<T>, Error>)
    requires Ready(job) && z < job.tiled.slices && t < job.tiled.frames
    ensures r.Success? <==> Covers(job.tiled, job.model.input) && Readable(job.model.output, job.classList)
    ensures !Covers(job.tiled, job.model.input) ==> r == Failure(ShapeMismatch)
    ensures Covers(job.tiled, job.model.input) && !Readable(job.model.output, job.classList) ==>
              r == Failure(UnreadableClass(job.model.output, job.classList))
    ensures r.Success? ==> && Valid(r.value)
                           && r.value.channels == OutputChannelCount(job.model.output.channels, job.classList)
                           && r.value.width == job.model.output.width
                           && r.value.height == job.model.output.height
                           && r.value.slices == 1 && r.value.frames == 1
  {
    match Encode(ExtractSlice(job.tiled, z, t), job.model.input)
    case Failure(e) => Failure(e)
    case Success(x) => Decode(job.infer(x), job.model.output, job.depth, job.classList, job.quant)
  }

  /** Whether (z', t') comes before (z, t) in the visit order. */
  predicate Before(z': nat, t': nat, z: nat, t: nat) {
    z' < z || (z' == z && t' < t)
  }

  /** Plane (c, z, t) of the stack holds channel c of the decoded model
      output for the slice at (z, t). */
  ghost predicate PlaneFilled<T(!new)>(job: Job<T>, acc: Image<T>, c: nat, z: nat, t: nat) {
    && Ready(job) && Valid(acc)
    && z < job.tiled.slices && t < job.tiled.frames
    && c < acc.channels && z < acc.slices && t < acc.frames
    && var out := SliceOutput(job, z, t);
       && out.Success? && c < out.value.channels
       && acc.planes[c][z][t] == out.value.planes[c][0][0]
  }

  /** Every plane at a coordinate before (z, t) is filled. */
  ghost predicate FilledBefore<T(!new)>(job: Job<T>, acc: Image<T>, z: nat, t: nat) {
    forall c: nat, z': nat, t': nat | c < acc.channels && z' < acc.slices && t' < acc.frames
      && Before(z', t', z, t) :: PlaneFilled(job, acc, c, z', t')
  }

  /** Writing the decoded output of (z, t) extends the filled region by one
      coordinate. */
  lemma FilledStep<T(!new)>(job: Job<T>, acc: Image<T>, next: Image<T>, z: nat, t: nat)
    requires Ready(job) && z < job.tiled.slices && t < job.tiled.frames
    requires Valid(acc) && acc.slices == job.tiled.slices && acc.frames == job.tiled.frames
    requires FilledBefore(job, acc, z, t)
    requires SliceOutput(job, z, t).Success? && SliceOutput(job, z, t).value.channels == acc.channels
    requires Valid(next) && SameDims(next, acc)
    requires forall c, z', t' | 0 <= c < next.channels && 0 <= z' < next.slices && 0 <= t' < next.frames ::
               next.planes[c][z'][t'] ==
                 if c < SliceOutput(job, z, t).value.channels && z' == z && t' == t
                 then SliceOutput(job, z, t).value.planes[c][0][0]
                 else acc.planes[c][z'][t']
    ensures FilledBefore(job, next, z, t + 1)
  {
    forall c: nat, z': nat, t': nat | c < next.channels && z' < next.slices && t' < next.frames
      && Before(z', t', z, t + 1)
      ensures PlaneFilled(job, next, c, z', t')
    {
      if z' != z || t' != t {
        assert Before(z', t', z, t);
        assert PlaneFilled(job, acc, c, z', t');
      }
    }
  }

  /** Finishing a row of frames is starting the next slice. */
  lemma FilledNextSlice<T(!new)>(job: Job<T>, acc: Image<T>, z: nat)
    requires acc.frames == job.tiled.frames
    requires FilledBefore(job, acc, z, job.tiled.frames)
    ensures FilledBefore(job, acc, z + 1, 0)
  {
  }

  /** The conditions under which a model returns its input unchanged: input
      and output shapes equal the image's own, the engine is the identity,
      samples are stored as floats and no class list is given. */
  ghost predicate IdentityRun<T(!new)>(job: Job<T>) {
    && job.model.input == Shape(job.tiled.channels, job.tiled.width, job.tiled.height)
    && job.model.output == job.model.input
    && (forall x :: job.infer(x) == x)
    && job.depth == ThirtyTwo && job.classList.None?
  }

  /** Under an identity run every slice comes back as it went in. */
  lemma {:induction false} IdentityModelReproducesSlice<T(!new)>(job: Job<T>, z: nat, t: nat)
    requires Ready(job) && z < job.tiled.slices && t < job.tiled.frames
    requires IdentityRun(job)
    ensures SliceOutput(job, z, t) == Success(ExtractSlice(job.tiled, z, t))
  {
    EncodeDecodeIdentity(ExtractSlice(job.tiled, z, t), job.quant);
  }

  /** Under an identity run a stack with every plane filled is the input. */
  lemma {:induction false} IdentityModelCopiesInput<T(!new)>(job: Job<T>, acc: Image<T>)
    requires Ready(job) && IdentityRun(job)
    requires Valid(acc) && SameDims(acc, job.tiled)
    requires forall c: nat, z: nat, t: nat | c < acc.channels && z < acc.slices && t < acc.frames ::
               PlaneFilled(job, acc, c, z, t)
    ensures acc == job.tiled
  {
    forall c, z, t | 0 <= c < acc.channels && 0 <= z < acc.slices && 0 <= t < acc.frames
      ensures acc.planes[c][z][t] == job.tiled.planes[c][z][t]
    {
      assert PlaneFilled(job, acc, c, z, t);
      IdentityModelReproducesSlice(job, z, t);
    }
    forall c, z | 0 <= c < acc.channels && 0 <= z < acc.slices
      ensures acc.planes[c][z] == job.tiled.planes[c][z]
    {
    }
    forall c | 0 <= c < acc.channels
      ensures acc.planes[c] == job.tiled.planes[c]
    {
    }
  }

  /** Writes the decoded slice of (z, t) into the stack and reports one more
      step of progress. A rejected write reports nothing. */
  method StoreSlice<T(!new)>(job: Job<T>, stack: Image<T>, acc: Image<T>, z: nat, t: nat, out: Image<T>,
                             visited0: seq<(nat, nat)>, progress0: seq<(nat, nat)>)
    returns (r: Result<Image<T>, Error>, visited: seq<(nat, nat)>, progress: seq<(nat, nat)>)
    requires Ready(job) && z < job.tiled.slices && t < job.tiled.frames
    requires Valid(acc) && SameDims(acc, stack)
    requires acc.slices == job.tiled.slices && acc.frames == job.tiled.frames
    requires FilledBefore(job, acc, z, t)
    requires SliceOutput(job, z, t) == Success(out)
    requires out.channels == acc.channels
    requires |progress0| == |visited0|
    requires forall i | 0 <= i < |progress0| :: progress0[i] == (i + 1, job.tiled.slices * job.tiled.frames)
    ensures r.Success? <==> out.channels == 0 || (out.width == acc.width && out.height == acc.height)
    ensures r.Failure? ==> r.error == WrongDimensions && visited == visited0 && progress == progress0
    ensures r.Success? ==> && Valid(r.value) && SameDims(r.value, stack)
                           && FilledBefore(job, r.value, z, t + 1)
                           && visited == visited0 + [(z, t)]
    ensures |progress| == |visited|
    ensures forall i | 0 <= i < |progress| :: progress[i] == (i + 1, job.tiled.slices * job.tiled.frames)
  {
    visited, progress := visited0, progress0;
    r := AddSliceToStack(acc, out, z, t);
    if r.Failure? {
      return;
    }
    FilledStep(job, acc, r.value, z, t);
    visited := visited0 + [(z, t)];
    progress := progress0 + [(|visited|, job.tiled.slices * job.tiled.frames)];
  }

  /** One pass of the inner loop: every frame of slice z, in order. Entered
      with everything before slice z filled; leaves everything before slice
      z + 1 filled, or fails at its first frame, reporting nothing. */
  method ProcessRow<T(!new)>(job: Job<T>, stack: Image<T>, acc0: Image<T>, z: nat,
                             visited0: seq<(nat, nat)>, progress0: seq<(nat, nat)>)
    returns (r: Result<Image<T>, Error>, visited: seq<(nat, nat)>, progress: seq<(nat, nat)>)
    requires Ready(job) && z < job.tiled.slices
    requires stack.width == job.tiled.width && stack.height == job.tiled.height
    requires stack.slices == job.tiled.slices && stack.frames == job.tiled.frames
    requires stack.channels == OutputChannelCount(job.model.output.channels, job.classList)
    requires Valid(acc0) && SameDims(acc0, stack) && FilledBefore(job, acc0, z, 0)
    requires |progress0| == |visited0|
    requires forall i | 0 <= i < |progress0| :: progress0[i] == (i + 1, job.tiled.slices * job.tiled.frames)
    requires |visited0| > 0 ==> Compatible(job)
    ensures |progress| == |visited|
    ensures forall i | 0 <= i < |progress| :: progress[i] == (i + 1, job.tiled.slices * job.tiled.frames)
    ensures r.Failure? ==> job.tiled.frames > 0 && !Compatible(job) && visited == visited0 && progress == progress0
    ensures r.Failure? && !Covers(job.tiled, job.model.input) ==> r.error == ShapeMismatch
    ensures r.Failure? && Covers(job.tiled, job.model.input) && !Readable(job.model.output, job.classList) ==>
              r.error == UnreadableClass(job.model.output, job.classList)
    ensures r.Failure? && Covers(job.tiled, job.model.input) && Readable(job.model.output, job.classList) ==>
              r.error == WrongDimensions
    ensures r.Success? ==> && Valid(r.value) && SameDims(r.value, stack)
                           && FilledBefore(job, r.value, z + 1, 0)
                           && visited == visited0 + Row(z, job.tiled.frames)
                           && (|visited| > 0 ==> Compatible(job))
  {
    var total := job.tiled.slices * job.tiled.frames;
    var acc := acc0;
    visited, progress := visited0, progress0;
    for t := 0 to job.tiled.frames
      invariant Valid(acc) && SameDims(acc, stack)
      invariant FilledBefore(job, acc, z, t)
      invariant visited == visited0 + Row(z, t)
      invariant |progress| == |visited|
      invariant forall i | 0 <= i < |progress| :: progress[i] == (i + 1, total)
      invariant |visited| > 0 ==> Compatible(job)
    {
      var out := SliceOutput(job, z, t);
      if out.Failure? {
        return Failure(out.error), visited, progress;
      }
      var stored;
      stored, visited, progress := StoreSlice(job, stack, acc, z, t, out.value, visited, progress);
      if stored.Failure? {
        return stored, visited, progress;
      }
      acc := stored.value;
      assert Row(z, t + 1) == Row(z, t) + [(z, t)];
    }
    FilledNextSlice(job, acc, z);
    r := Success(acc);
  }

  /** The loop of the module's `process`. On success every (z, t) has been
      visited once, in z-major order, progress has been reported as
      (1, total) .. (total, total), and every plane of the stack holds the
      decoded model output for its coordinate. Whether a slice fails does
      not depend on its coordinate, so a failure strikes at the first one,
      before anything is written or reported. */
  method ProcessSlices<T(!new)>(job: Job<T>, stack: Image<T>)
    returns (r: Result<Image<T>, Error>, visited: seq<(nat, nat)>, progress: seq<(nat, nat)>)
    requires Ready(job) && Valid(stack)
    requires stack.channels == OutputChannelCount(job.model.output.channels, job.classList)
    requires stack.width == job.tiled.width && stack.height == job.tiled.height
    requires stack.slices == job.tiled.slices && stack.frames == job.tiled.frames
    ensures r.Success? <==> job.tiled.slices * job.tiled.frames == 0 || Compatible(job)
    ensures r.Failure? ==> visited == [] && progress == []
    ensures r.Failure? && !Covers(job.tiled, job.model.input) ==> r.error == ShapeMismatch
    ensures r.Failure? && Covers(job.tiled, job.model.input) && !Readable(job.model.output, job.classList) ==>
              r.error == UnreadableClass(job.model.output, job.classList)
    ensures r.Failure? && Covers(job.tiled, job.model.input) && Readable(job.model.output, job.classList) ==>
              r.error == WrongDimensions
    ensures r.Success? ==> visited == Visits(job.tiled.slices, job.tiled.frames)
    ensures r.Success? ==> |progress| == job.tiled.slices * job.tiled.frames
    ensures forall i | 0 <= i < |progress| :: progress[i] == (i + 1, job.tiled.slices * job.tiled.frames)
    ensures r.Success? ==> Valid(r.value) && SameDims(r.value, stack)
    ensures r.Success? ==> forall c: nat, z: nat, t: nat | c < stack.channels && z < stack.slices && t < stack.frames ::
              PlaneFilled(job, r.value, c, z, t)
  {
    var acc := stack;
    visited, progress := [], [];
    for z := 0 to job.tiled.slices
      invariant Valid(acc) && SameDims(acc, stack)
      invariant FilledBefore(job, acc, z, 0)
      invariant visited == Visits(z, job.tiled.frames)
      invariant |progress| == |visited|
      invariant forall i | 0 <= i < |progress| :: progress[i] == (i + 1, job.tiled.slices * job.tiled.frames)
      invariant |visited| > 0 ==> Compatible(job)
    {
      var row;
      row, visited, progress := ProcessRow(job, stack, acc, z, visited, progress);
      if row.Failure? {
        return row, visited, progress;
      }
      acc := row.value;
    }
    VisitsLength(job.tiled.slices, job.tiled.frames);
    assert forall z', t' | 0 <= z' < job.tiled.slices && 0 <= t' < job.tiled.frames ::
             Before(z', t', job.tiled.slices, 0);
    r := Success(acc);
  }
}
