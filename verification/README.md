# RunONNXModel — a Dafny model of the inference pipeline

This project models the index-level pipeline of the MIA module *Run ONNX
model*. The module runs a pixel-classification network on a five-dimensional
hyperstack (channel, x, y, slice z, frame t). Its pipeline has these steps:

- parse the optional "output classes" text into a class list;
- decide whether the input must be cut into model-sized tiles;
- allocate an empty output stack;
- for every (z, t) in z-major order:
  - encode the slice into a `[1][C][W][H]` tensor;
  - run the model;
  - decode the output tensor into a slice, quantized to the output bit depth and optionally filtered and reordered by the class list;
  - write the slice into the stack at (z, t);
- stitch the filled stack back to the input's size.

The pixel type is a generic `T`. The foreign collaborators are function
parameters:

- the inference engine (`infer`);
- the tiler's `getTileCount`, `tile` and `stitch` (the `Tiler` record);
- the float rounding of the 8- and 16-bit quantizer (`quant`);
- the zero pixel of a new hyperstack.

Exceptions the source lets escape are `Failure` values of `Errors.Error`.

Modules, one per concern:

- `Wrappers`: the `Option` and `Result` datatypes.
- `Errors`: the error kinds.
- `JavaInts`: Java's 32-bit `int` range and wrap-around.
- `Hyperstack`: the host image container.
- `Tensors`: the tensor type and its shapes.
- `TensorCodec`: `getInputTensor` and `getOutputImage`.
- `JavaStrings`: `String.trim`, `String.split(",")` and `Integer.parseInt`.
- `ClassList`: the class-list parse in `process`.
- `Tiling`: `tileImage` and `stitchImage`.
- `SliceLoop`: `createEmptyOutputImage`, `addSliceToStack` and the (z, t) loop.
- `RunOnnxModel`: `process` as a whole.

Failures the program does not handle, each stated from the code:

- **Undersized input.** An input smaller than the model on both axes makes `tileImage` return `null` (RunONNXModel.java:149). `createEmptyOutputImage` then calls `getImagePlus()` on it (line 196), which is an uncaught `NullPointerException`. `Process` reports `Failure(NullImage)`.
- **Errors nobody catches.** An unparsable class piece (line 285), and a class index outside 1..C_out (lines 243-247), raise exceptions the code does not catch, so they end the run. They are `Failure(NumberFormat(piece))` and `Failure(IndexOutOfBounds(c - 1))`, where `c - 1` is computed in `int` arithmetic: class -2147483648 reads channel 2147483647.
- **Out-of-range class index.** The bad channel is read inside the pixel loop. When the model's output window is empty, nothing is read and nothing fails.

Four points are host behaviour that the source does not show:

- **Short slice.** The encoder reads the model's W x H window and C channels without checking the slice's size (lines 182-187). The model reports `ShapeMismatch` when the slice has fewer channels, columns or rows than the model input.
- **Wrong-sized decoded slice.** `addSliceToStack` hands each channel plane of the decoded slice to the stack's `setProcessor` (lines 259-262). The model reports `WrongDimensions` at the first such write when the plane's width or height differs from the stack's, as `setProcessor` does for a stack of more than one plane. A decoded slice without channels (an empty class list) writes nothing and cannot fail.
- **Empty hyperstacks.** `IJ.createHyperStack` is assumed to create an image with zero channels, zero width or zero height when asked to. This matters for the output stack (lines 202-203) and for each decoded slice (lines 219-220), for instance with an empty class list.
- **Shape of the model's output.** The inference engine is assumed to return a tensor of the declared output shape for every input of the declared input shape (`SliceLoop.InferFits`).

## Model

All source paths are `src/main/java/io/github/mianalysis/mia/module/images/process/RunONNXModel.java`.

| member | source | states |
|---|---|---|
| `Tiling.Decide` | src/main/java/io/github/mianalysis/mia/module/images/process/RunONNXModel.java:135-151 | Tile exactly when the image is wider or taller than the model; pass through exactly when it is no larger on both axes and equal on at least one; undersized exactly when it is smaller on both. |
| `Tiling.TileImage` | src/main/java/io/github/mianalysis/mia/module/images/process/RunONNXModel.java:127-152 | No image exactly when the input is smaller on both axes. When larger on an axis, the tiler's output for the tile counts of both axes, model tile size and overlap on both axes. Otherwise the input itself, unchanged. |
| `Tiling.StitchImage` | src/main/java/io/github/mianalysis/mia/module/images/process/RunONNXModel.java:154-169 | The filled stack goes to the tiler's `stitch` at the requested output size, with tile counts computed from that size, the overlap and the stack's own width and height. |
| `Tiling.StitchUsesTilingGeometry` | src/main/java/io/github/mianalysis/mia/module/images/process/RunONNXModel.java:154-169 | A stack of the model's tile size is stitched with the same tile counts the tiling step computed from the original size. |
| `Hyperstack.CreateHyperStack` | src/main/java/io/github/mianalysis/mia/module/images/process/RunONNXModel.java:202-203 | The new hyperstack has the requested dimensions, and every pixel is zero. |
| `Hyperstack.ExtractSlice` | src/main/java/io/github/mianalysis/mia/module/images/process/RunONNXModel.java:304-305 | The substack at (z, t) keeps every channel and the width and height, has one slice and one frame, and each channel plane is the stack's plane at (z, t). |
| `Hyperstack.SetPlane` | src/main/java/io/github/mianalysis/mia/module/images/process/RunONNXModel.java:259-261 | Writing the plane at (c, z, t) changes that plane and no other. |
| `TensorCodec.Encode` | src/main/java/io/github/mianalysis/mia/module/images/process/RunONNXModel.java:171-192 | Succeeds exactly when the slice covers the model's C x W x H input; otherwise ShapeMismatch. On success the tensor has shape 1 x C x W x H, and `tensor[0][c][x][y]` is the slice pixel (c, x, y), with no normalisation. |
| `TensorCodec.Quantize` | src/main/java/io/github/mianalysis/mia/module/images/process/RunONNXModel.java:228-233 | At 32 bits the tensor value is stored unchanged; at 8 and 16 bits it goes through the rounding for that depth. |
| `TensorCodec.FirstOutOfRange` | src/main/java/io/github/mianalysis/mia/module/images/process/RunONNXModel.java:236-247 | Finds the first class index outside 1..C_out. None exactly when every index is in range. |
| `TensorCodec.ClassChannel` | src/main/java/io/github/mianalysis/mia/module/images/process/RunONNXModel.java:243-247 | The channel read for class c is an `int`: c - 1 for every class above the smallest `int`, and the largest `int` for the smallest. |
| `JavaInts.Wrap32` | src/main/java/io/github/mianalysis/mia/module/images/process/RunONNXModel.java:243-247 | The `int` result of an exact value: in the 32-bit range, congruent to it modulo 2^32, and the value itself when already in range. |
| `TensorCodec.DecodePlane` | src/main/java/io/github/mianalysis/mia/module/images/process/RunONNXModel.java:225-232 | One output plane is W_out x H_out, and each sample is the quantized tensor value at the same (x, y) of the chosen tensor channel. |
| `TensorCodec.Decode` | src/main/java/io/github/mianalysis/mia/module/images/process/RunONNXModel.java:209-253 | Fails exactly when a class list holds an index outside 1..C_out and the output window is not empty; the failure is IndexOutOfBounds of the first bad index minus one, in `int` arithmetic. On success: one channel per class-list entry (C_out without a list), W_out x H_out, one slice and one frame; output channel i holds the quantized tensor channel i, or classList[i]-1 with a list. |
| `TensorCodec.EncodeDecodeRoundTrip` | src/main/java/io/github/mianalysis/mia/module/images/process/RunONNXModel.java:222-233 | Encoding, then decoding the unchanged tensor at 32 bits with no class list, gives back the slice's first C channels over the W x H window. |
| `TensorCodec.EncodeDecodeIdentity` | src/main/java/io/github/mianalysis/mia/module/images/process/RunONNXModel.java:177-187 | For a slice exactly the model's shape, encode then decode at 32 bits without a class list returns the slice itself. |
| `TensorCodec.FullClassListIsIdentity` | src/main/java/io/github/mianalysis/mia/module/images/process/RunONNXModel.java:222-247 | The class list 1, 2, ..., C_out decodes to exactly what no class list does. |
| `TensorCodec.SelectionKeepsCallerOrder` | src/main/java/io/github/mianalysis/mia/module/images/process/RunONNXModel.java:236-240 | The class list [3, 1] yields two channels: tensor channel 3 first, then tensor channel 1. |
| `TensorCodec.ClassOutOfRangeFails` | src/main/java/io/github/mianalysis/mia/module/images/process/RunONNXModel.java:238-247 | Class 0 reads the nonexistent tensor channel -1, and class C_out + 1 after a good class (itself an `int`) reads channel C_out; each fails with that index. |
| `TensorCodec.SmallestClassWraps` | src/main/java/io/github/mianalysis/mia/module/images/process/RunONNXModel.java:243-247 | Class -2147483648 fails at channel 2147483647, the wrapped `c - 1`. |
| `SliceLoop.CreateEmptyOutputImage` | src/main/java/io/github/mianalysis/mia/module/images/process/RunONNXModel.java:194-207 | The stack takes width, height, slices and frames from the (tiled) input. It has one channel per class-list entry, or C_out without a list, and every pixel is zero. |
| `SliceLoop.AllocationMatchesDecode` | src/main/java/io/github/mianalysis/mia/module/images/process/RunONNXModel.java:200-213 | The allocated stack and every successfully decoded slice have the same channel count. |
| `SliceLoop.AddSliceToStack` | src/main/java/io/github/mianalysis/mia/module/images/process/RunONNXModel.java:255-264 | Fails with WrongDimensions exactly when the slice has a channel and its width or height differs from the stack's; a slice without channels never fails. On success, planes (c, z, t) for c below the slice's channel count become the slice's planes, every other plane is unchanged, and the dimensions stay the same. |
| `SliceLoop.NoChannelIsCompatible` | src/main/java/io/github/mianalysis/mia/module/images/process/RunONNXModel.java:259-262 | With an empty class list the loop can proceed whatever the model's output size, because no channel is written. |
| `SliceLoop.SliceOutput` | src/main/java/io/github/mianalysis/mia/module/images/process/RunONNXModel.java:304-317 | Extract, encode, infer, decode for one (z, t). It succeeds exactly when the image covers the model input and every class is readable, independently of (z, t). The errors are ShapeMismatch first, then IndexOutOfBounds. |
| `SliceLoop.VisitsLength` | src/main/java/io/github/mianalysis/mia/module/images/process/RunONNXModel.java:301-303 | The loop makes nSlices x nFrames visits. |
| `SliceLoop.VisitsAt` | src/main/java/io/github/mianalysis/mia/module/images/process/RunONNXModel.java:302-303 | Visit number z * nFrames + t is (z, t): z-major, then t. |
| `SliceLoop.VisitsInRange` | src/main/java/io/github/mianalysis/mia/module/images/process/RunONNXModel.java:302-303 | Every visited (z, t) lies inside the stack. |
| `SliceLoop.VisitsDistinct` | src/main/java/io/github/mianalysis/mia/module/images/process/RunONNXModel.java:302-303 | No (z, t) is visited twice. |
| `SliceLoop.VisitsCover` | src/main/java/io/github/mianalysis/mia/module/images/process/RunONNXModel.java:302-303 | Every (z, t) of the stack is visited. |
| `SliceLoop.VisitsThreeByTwo` | src/main/java/io/github/mianalysis/mia/module/images/process/RunONNXModel.java:302-303 | Three slices and two frames are visited as (0,0), (0,1), (1,0), (1,1), (2,0), (2,1). |
| `SliceLoop.FilledStep` | src/main/java/io/github/mianalysis/mia/module/images/process/RunONNXModel.java:320 | Writing the decoded output of (z, t) keeps every earlier coordinate filled and fills (z, t). |
| `SliceLoop.FilledNextSlice` | src/main/java/io/github/mianalysis/mia/module/images/process/RunONNXModel.java:302-303 | Having filled every frame of slice z is having filled everything before slice z + 1. |
| `SliceLoop.StoreSlice` | src/main/java/io/github/mianalysis/mia/module/images/process/RunONNXModel.java:320-322 | Writing the decoded slice of (z, t) fails exactly when the write rejects it, and then reports nothing. Otherwise it fills (z, t), keeps every earlier coordinate filled, and adds one visit, (z, t), and one progress report, (count, total). |
| `SliceLoop.ProcessRow` | src/main/java/io/github/mianalysis/mia/module/images/process/RunONNXModel.java:303-324 | The frames of slice z are visited in order, leaving everything before slice z + 1 filled. A failure can only happen when image, model and class list are incompatible; it has the kind of its cause, and this row then adds no visit and no progress report. |
| `SliceLoop.ProcessSlices` | src/main/java/io/github/mianalysis/mia/module/images/process/RunONNXModel.java:300-325 | Succeeds exactly when there is nothing to visit or the image, model and class list are compatible (the output size counts only when a channel is written). A failure comes at the first coordinate, before any write or progress report: ShapeMismatch, then the first bad class as IndexOutOfBounds, then WrongDimensions. On success: every (z, t) is visited once in z-major order; progress is (1, total) .. (total, total); every plane of the stack holds the decoded model output for its own coordinate. |
| `SliceLoop.IdentityModelReproducesSlice` | src/main/java/io/github/mianalysis/mia/module/images/process/RunONNXModel.java:304-317 | With an identity model of the image's own shape, 32-bit output and no class list, each (z, t) decodes to exactly the slice extracted there. |
| `SliceLoop.IdentityModelCopiesInput` | src/main/java/io/github/mianalysis/mia/module/images/process/RunONNXModel.java:300-325 | Under the same conditions, the stack the loop fills equals the input image. |
| `RunOnnxModel.Process` | src/main/java/io/github/mianalysis/mia/module/images/process/RunONNXModel.java:266-345 | Errors come in the source's order: an unparsable class piece, then an input too small to tile, then the slice loop's error, which is ShapeMismatch for a slice smaller than the model input, else IndexOutOfBounds of the first bad class, else WrongDimensions. Success holds exactly when none of them applies. On success: the filled stack has the allocation's shape and holds every slice's model output; progress counts 1..total; the result is the stitched stack at the input's width and height. |
| `JavaStrings.Trim` | src/main/java/io/github/mianalysis/mia/module/images/process/RunONNXModel.java:281 | The result is a contiguous part of the text. Every character outside it is at or below U+0020, and neither of its ends is. |
| `JavaStrings.TrimIdempotent` | src/main/java/io/github/mianalysis/mia/module/images/process/RunONNXModel.java:281 | Trimming twice is trimming once. |
| `JavaStrings.TrimExactly` | src/main/java/io/github/mianalysis/mia/module/images/process/RunONNXModel.java:281 | A core with non-blank ends, padded with blanks, trims to exactly the core. |
| `JavaStrings.SplitAll` | src/main/java/io/github/mianalysis/mia/module/images/process/RunONNXModel.java:282 | The comma-separated pieces: at least one, and none containing a comma. |
| `JavaStrings.JoinSplitAll` | src/main/java/io/github/mianalysis/mia/module/images/process/RunONNXModel.java:282 | Joining the pieces with commas gives back the text. |
| `JavaStrings.SplitAllJoin` | src/main/java/io/github/mianalysis/mia/module/images/process/RunONNXModel.java:282 | Splitting comma-free pieces joined with commas gives back the pieces. |
| `JavaStrings.DropTrailingEmpty` | src/main/java/io/github/mianalysis/mia/module/images/process/RunONNXModel.java:282 | The result is a prefix of the pieces; only empty pieces are dropped, and the result does not end with one. |
| `JavaStrings.Split` | src/main/java/io/github/mianalysis/mia/module/images/process/RunONNXModel.java:282 | Text without a comma is its own single piece. Otherwise: the comma-separated pieces in order, minus the trailing empty ones. |
| `JavaStrings.ParseInt` | src/main/java/io/github/mianalysis/mia/module/images/process/RunONNXModel.java:285 | A value is accepted only from a non-empty sign-and-digits string, and only within the 32-bit range. Text starting with any other character is rejected. |
| `JavaStrings.ParseIntPadded` | src/main/java/io/github/mianalysis/mia/module/images/process/RunONNXModel.java:285 | Every optional sign, any number of leading zeros and a magnitude parse to the magnitude, negated after '-', exactly when that value is in the 32-bit range: "+3" and "03" give 3, "-0" gives 0. |
| `JavaStrings.DigitsCanonical` | src/main/java/io/github/mianalysis/mia/module/images/process/RunONNXModel.java:285 | A digit string is some leading zeros followed by the canonical decimal digits of its value. |
| `JavaStrings.ParseIntOnlyPadded` | src/main/java/io/github/mianalysis/mia/module/images/process/RunONNXModel.java:285 | Every string that parses is a sign, leading zeros and the decimal digits of the value's magnitude; with ParseIntPadded this determines the accepted strings and their values. |
| `JavaStrings.ParseIntToDecimal` | src/main/java/io/github/mianalysis/mia/module/images/process/RunONNXModel.java:285 | Every 32-bit value, written in decimal, parses back to itself. |
| `JavaStrings.ParseIntOverflow` | src/main/java/io/github/mianalysis/mia/module/images/process/RunONNXModel.java:285 | A well-formed decimal outside the 32-bit range is rejected. |
| `JavaStrings.SpacedPieceRejected` | src/main/java/io/github/mianalysis/mia/module/images/process/RunONNXModel.java:285 | " 2" and "2 " are not numbers. |
| `JavaStrings.ParseIntSigns` | src/main/java/io/github/mianalysis/mia/module/images/process/RunONNXModel.java:285 | A sign alone is rejected, and a leading '+' is accepted. |
| `ClassList.FirstUnparsable` | src/main/java/io/github/mianalysis/mia/module/images/process/RunONNXModel.java:284-285 | Finds the first piece that is not a number. None exactly when every piece parses. |
| `ClassList.ParseAll` | src/main/java/io/github/mianalysis/mia/module/images/process/RunONNXModel.java:283-285 | Succeeds exactly when every piece parses, giving one value per piece in order. Otherwise it fails with the first unparsable piece. |
| `ClassList.ParseClassList` | src/main/java/io/github/mianalysis/mia/module/images/process/RunONNXModel.java:279-286 | No list when the option is off. Otherwise a list exactly when every piece of the trimmed, comma-split text parses, with one class per piece in order. |
| `ClassList.ParseClassListOfDecimals` | src/main/java/io/github/mianalysis/mia/module/images/process/RunONNXModel.java:279-286 | Any non-empty list of 32-bit classes, printed in decimal and joined with commas, parses back to that list. |
| `ClassList.ParseClassListExample` | src/main/java/io/github/mianalysis/mia/module/images/process/RunONNXModel.java:279-286 | " 3,1,3 " gives [3, 1, 3]: outer blanks are trimmed, and order and duplicates are kept. |
| `ClassList.InnerSpaceRejected` | src/main/java/io/github/mianalysis/mia/module/images/process/RunONNXModel.java:279-286 | "1, 2" fails on the piece " 2", because only the whole text is trimmed. |
| `ClassList.LoneCommaGivesEmptyList` | src/main/java/io/github/mianalysis/mia/module/images/process/RunONNXModel.java:279-286 | "," gives the empty class list. |
| `ClassList.EmptyTextRejected` | src/main/java/io/github/mianalysis/mia/module/images/process/RunONNXModel.java:279-286 | Blank text fails on the empty piece. |

## Left out

- The ONNX runtime: creating the session, looking up the input and output shapes, `OrtSession.run`, and the `OrtException` catch that returns `FAIL`. The shapes are the `ModelShape` parameter, and inference is the `infer` parameter.
- `ImageTiler.getTileCount`, `tile` and `stitch`: their source is not part of this model. They are uninterpreted, so nothing is claimed about tile counts or a tile/stitch round trip.
- `ExtractSubstack.extractSubstack` is not part of this model. `Hyperstack.ExtractSlice` states the single-(z, t) substack it is called for.
- Float rounding at 8 and 16 bits (`Math.round(v * 255)`, `Math.round(v * 65535)`): this is the abstract `quant`. Only the index mapping and the unchanged 32-bit value are proved.
- Parsing of the bit-depth choice: `BitDepth` holds only the three values the choice parameter offers, so the source's path that writes nothing for another depth does not arise.
- Module plumbing: parameter definitions, the workspace, logging, progress output (modelled only as the sequence of (count, total) pairs), showing the image, and the image names.
- Dynamic (-1) dimensions in a model's declared shape, and the `(int)` casts of the shape: shapes are natural numbers.
- SliceLoop.ProcessSlices: does not model the 32-bit wrap-around of `nSlices * nFrames`; `total` is the exact product.
- JavaStrings.ParseInt: accepts only ASCII digits; `Integer.parseInt` also accepts other Unicode decimal digits.
- Hyperstack.CreateHyperStack: assumes that a hyperstack with zero channels, zero width or zero height can be created; `IJ.createHyperStack` is not part of this model.
- SliceLoop.AddSliceToStack: reports `WrongDimensions` for a wrong-sized plane even when the stack holds a single plane; the host's `setProcessor` is not part of this model, and for a single-plane image it would replace the image instead.
- TensorCodec.Encode: reports a slice with fewer channels, columns or rows than the model input as `ShapeMismatch`, where the host would clamp the channel position or read outside the image.
