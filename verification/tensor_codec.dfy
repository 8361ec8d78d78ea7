/** Dense float tensors as the inference engine sees them, indexed
    `[batch][channel][x][y]`. */
module Tensors {

  type Tensor<T> = seq<seq<seq<seq<T>>>>

  /** A model's declared tensor extent for one input or output: channels,
      width, height (the batch size is always 1). */
  datatype Shape = Shape(channels: nat, width: nat, height: nat)

  predicate HasShape<T>(t: Tensor<T>, batch: nat, channels: nat, width: nat, height: nat) {
    && |t| == batch
    && (forall b | 0 <= b < batch :: |t[b]| == channels)
    && (forall b, c | 0 <= b < batch && 0 <= c < channels :: |t[b][c]| == width)
    && (forall b, c, x | 0 <= b < batch && 0 <= c < channels && 0 <= x < width ::
          |t[b][c][x]| == height)
  }

  /** The single-batch tensor of a declared shape. */
  predicate Fits<T>(t: Tensor<T>, s: Shape) {
    HasShape(t, 1, s.channels, s.width, s.height)
  }
}

/** Conversion between one 2D multi-channel slice and the model's input
    tensor, and from the model's output tensor to a quantized, optionally
    class-filtered output slice. */
module TensorCodec {
  import opened Wrappers
  import opened JavaInts
  import opened Errors
  import opened Hyperstack
  import opened Tensors

  /** The output bit depths offered by the module's choice parameter. */
  datatype BitDepth = Eight | Sixteen | ThirtyTwo

  /** The sample stored for tensor value `v`. At 8 and 16 bits the source
      stores `Math.round(v * 255)` or `Math.round(v * 65535)`; that float
      rounding is the abstract `quant`. At 32 bits the value is stored as is. */
  function Quantize<T>(depth: BitDepth, v: T, quant: (BitDepth, T) -> T): (r: T)
    ensures depth == ThirtyTwo ==> r == v
    ensures depth != ThirtyTwo ==> r == quant(depth, v)
  {
    if depth == ThirtyTwo then v else quant(depth, v)
  }

  /** The slice holds at least the model's channels, width and height. */
  predicate Covers<T>(slice: Image<T>, input: Shape) {
    slice.channels >= input.channels && slice.width >= input.width && slice.height >= input.height
  }

  /** The tensor `[1][C][W][H]` holding channels 1..C of the slice over the
      model's W x H window. Nothing is normalised. */
  function Encode<T>(slice: Image<T>, input: Shape): (r: Result<Tensor<T>, Error>)
    requires Valid(slice) && slice.slices >= 1 && slice.frames >= 1
    ensures r.Success? <==> Covers(slice, input)
    ensures r.Failure? ==> r.error == ShapeMismatch
    ensures r.Success? ==> Fits(r.value, input)
    ensures r.Success? ==> forall c: nat, x: nat, y: nat
              | c < input.channels && x < input.width && y < input.height ::
              r.value[0][c][x][y] == Pixel(slice, c, x, y, 0, 0)
  {
    if !Covers(slice, input) then Failure(ShapeMismatch)
    else
      var body := seq(input.channels, c requires 0 <= c < input.channels =>
                    seq(input.width, x requires 0 <= x < input.width =>
                      seq(input.height, y requires 0 <= y < input.height =>
                        slice.planes[c][0][0][x][y])));
      Success([body])
  }

  /** Channels of the decoded slice and of the output stack: the length of
      the class list when one is given, else the model's output channels. */
  function OutputChannelCount(outChannels: nat, classList: Option<seq<int>>): nat {
    match classList
    case None => outChannels
    case Some(l) => |l|
  }

  predicate InClassRange(k: int, outChannels: nat) {
    1 <= k <= outChannels
  }

  /** Position of the first class index outside 1..outChannels, if any. */
  function FirstOutOfRange(l: seq<int>, outChannels: nat): (r: Option<nat>)
    ensures r.None? <==> forall i | 0 <= i < |l| :: InClassRange(l[i], outChannels)
    ensures r.Some? ==> r.value < |l| && !InClassRange(l[r.value], outChannels)
    ensures r.Some? ==> forall i | 0 <= i < r.value :: InClassRange(l[i], outChannels)
  {
    if |l| == 0 then None
    else if !InClassRange(l[0], outChannels) then Some(0)
    else
      match FirstOutOfRange(l[1..], outChannels)
      case None => None
      case Some(k) => Some(k + 1)
  }

  /** The tensor channel feeding output channel i: i itself, or the 1-based
      class `classList[i]` shifted to 0-based. */
  function SourceChannel(classList: Option<seq<int>>, i: nat): int
    requires classList.Some? ==> i < |classList.value|
  {
    match classList
    case None => i
    case Some(l) => l[i] - 1
  }

  /** Every tensor channel the decoder reads exists. The read happens inside
      the pixel loop, so an empty W x H window reads nothing. */
  predicate Readable(out: Shape, classList: Option<seq<int>>) {
    || classList.None?
    || FirstOutOfRange(classList.value, out.channels).None?
    || out.width == 0
    || out.height == 0
  }

  /** The 0-based tensor channel read for class c: `c - 1` in `int`
      arithmetic, so the smallest `int` reads the largest. */
  function ClassChannel(c: int): (r: int)
    ensures Int32Min <= r <= Int32Max
    ensures Int32Min < c <= Int32Max ==> r == c - 1
    ensures c == Int32Min ==> r == Int32Max
  {
    Wrap32(c - 1)
  }

  /** The error of a decode that reads a class outside 1..C_out: the first
      such class, as the 0-based tensor channel it reads. */
  function UnreadableClass(out: Shape, classList: Option<seq<int>>): Error
    requires !Readable(out, classList)
  {
    var l := classList.value;
    IndexOutOfBounds(ClassChannel(l[FirstOutOfRange(l, out.channels).value]))
  }

  function DecodePlane<T>(tensor: Tensor<T>, out: Shape, k: nat, depth: BitDepth,
                          quant: (BitDepth, T) -> T): (p: Plane<T>)
    requires Fits(tensor, out) && k < out.channels
    ensures IsPlane(p, out.width, out.height)
    ensures forall x: nat, y: nat | x < out.width && y < out.height ::
              p[x][y] == Quantize(depth, tensor[0][k][x][y], quant)
  {
    seq(out.width, x requires 0 <= x < out.width =>
      seq(out.height, y requires 0 <= y < out.height =>
        Quantize(depth, tensor[0][k][x][y], quant)))
  }

  /** The output slice of one inference: shape (channels, W_out, H_out, 1, 1);
      output channel i is filled from tensor channel `SourceChannel(i)`, each
      sample quantized to `depth`. */
  function Decode<T>(tensor: Tensor<T>, out: Shape, depth: BitDepth, classList: Option<seq<int>>,
                     quant: (BitDepth, T) -> T): (r: Result<Image<T>, Error>)
    requires Fits(tensor, out)
    ensures r.Success? <==> Readable(out, classList)
    ensures r.Failure? ==> classList.Some? && out.width > 0 && out.height > 0
    ensures r.Failure? ==> var k := FirstOutOfRange(classList.value, out.channels).value;
              r.error == IndexOutOfBounds(ClassChannel(classList.value[k]))
    ensures r.Success? ==> Valid(r.value)
    ensures r.Success? ==> r.value.channels == OutputChannelCount(out.channels, classList)
    ensures r.Success? ==> r.value.width == out.width && r.value.height == out.height
    ensures r.Success? ==> r.value.slices == 1 && r.value.frames == 1
    ensures r.Success? ==> forall i: nat, x: nat, y: nat
              | i < r.value.channels && x < out.width && y < out.height ::
              && 0 <= SourceChannel(classList, i) < out.channels
              && Pixel(r.value, i, x, y, 0, 0) == Quantize(depth, tensor[0][SourceChannel(classList, i)][x][y], quant)
  {
    if !Readable(out, classList) then
      var k := FirstOutOfRange(classList.value, out.channels).value;
      Failure(IndexOutOfBounds(ClassChannel(classList.value[k])))
    else if out.width == 0 || out.height == 0 then
      // No pixel is read or written.
      var n := OutputChannelCount(out.channels, classList);
      var empty: Plane<T> := seq(out.width, _ => []);
      Success(Image(n, out.width, out.height, 1, 1, seq(n, _ => [[empty]])))
    else
      var n := OutputChannelCount(out.channels, classList);
      var planes := seq(n, i requires 0 <= i < n =>
                      [[DecodePlane(tensor, out, SourceChannel(classList, i) as nat, depth, quant)]]);
      Success(Image(n, out.width, out.height, 1, 1, planes))
  }

  /** Encoding a slice and decoding the unchanged tensor at 32 bits with no
      class list reproduces the slice's first C channels over the W x H
      window; when the slice is exactly the model's shape, it reproduces the
      slice itself. */
  lemma EncodeDecodeRoundTrip<T>(slice: Image<T>, shape: Shape, quant: (BitDepth, T) -> T)
    requires Valid(slice) && slice.slices >= 1 && slice.frames >= 1 && Covers(slice, shape)
    ensures Encode(slice, shape).Success?
    ensures var d := Decode(Encode(slice, shape).value, shape, ThirtyTwo, None, quant);
            && d.Success?
            && forall c: nat, x: nat, y: nat | c < shape.channels && x < shape.width && y < shape.height ::
                 Pixel(d.value, c, x, y, 0, 0) == Pixel(slice, c, x, y, 0, 0)
  {
  }

  lemma {:induction false} EncodeDecodeIdentity<T>(slice: Image<T>, quant: (BitDepth, T) -> T)
    requires Valid(slice) && slice.slices == 1 && slice.frames == 1
    ensures var shape := Shape(slice.channels, slice.width, slice.height);
            && Encode(slice, shape).Success?
            && Decode(Encode(slice, shape).value, shape, ThirtyTwo, None, quant) == Success(slice)
  {
    var shape := Shape(slice.channels, slice.width, slice.height);
    EncodeDecodeRoundTrip(slice, shape, quant);
    var d := Decode(Encode(slice, shape).value, shape, ThirtyTwo, None, quant).value;
    Extensionality(d, slice);
  }

  /** The class list 1, 2, ..., C_out selects every channel in its native
      order: it decodes to exactly what no class list does. */
  lemma {:induction false} FullClassListIsIdentity<T>(tensor: Tensor<T>, out: Shape, depth: BitDepth,
                                                     quant: (BitDepth, T) -> T)
    requires Fits(tensor, out)
    ensures var all := seq(out.channels, i => i + 1);
            Decode(tensor, out, depth, Some(all), quant) == Decode(tensor, out, depth, None, quant)
  {
    var all := seq(out.channels, i => i + 1);
    assert FirstOutOfRange(all, out.channels).None?;
    var a := Decode(tensor, out, depth, Some(all), quant).value;
    var b := Decode(tensor, out, depth, None, quant).value;
    Extensionality(a, b);
  }

  /** Selection [3, 1] of a four-channel output yields two channels, the
      third tensor channel first and the first second. */
  lemma SelectionKeepsCallerOrder<T>(a: T, b: T, c: T, d: T, quant: (BitDepth, T) -> T)
    ensures var tensor := [[[[a]], [[b]], [[c]], [[d]]]];
            var r := Decode(tensor, Shape(4, 1, 1), ThirtyTwo, Some([3, 1]), quant);
            && r.Success?
            && r.value.channels == 2
            && Pixel(r.value, 0, 0, 0, 0, 0) == c
            && Pixel(r.value, 1, 0, 0, 0, 0) == a
  {
  }

  /** A class index of 0, or of C_out + 1 after a good one, makes the
      decoder read a tensor channel that does not exist: -1 or C_out. The
      class C_out + 1 is itself an `int`. */
  lemma ClassOutOfRangeFails<T>(tensor: Tensor<T>, out: Shape, depth: BitDepth,
                                quant: (BitDepth, T) -> T)
    requires Fits(tensor, out) && out.width > 0 && out.height > 0
    requires out.channels < Int32Max
    ensures Decode(tensor, out, depth, Some([1, out.channels + 1]), quant)
            == Failure(IndexOutOfBounds(out.channels))
    ensures Decode(tensor, out, depth, Some([0]), quant) == Failure(IndexOutOfBounds(-1))
  {
    var l := [1, out.channels + 1];
    assert l[1..] == [out.channels + 1];
    assert l[1..][1..] == [];
    if out.channels == 0 {
      assert FirstOutOfRange(l, out.channels) == Some(0);
    } else {
      assert FirstOutOfRange(l[1..], out.channels) == Some(0);
      assert FirstOutOfRange(l, out.channels) == Some(1);
    }
  }

  /** The smallest `int` as a class reads channel `c - 1`, which wraps round
      to the largest `int`; that is the index reported. */
  lemma SmallestClassWraps<T>(tensor: Tensor<T>, out: Shape, depth: BitDepth,
                              quant: (BitDepth, T) -> T)
    requires Fits(tensor, out) && out.width > 0 && out.height > 0
    ensures Decode(tensor, out, depth, Some([Int32Min]), quant) == Failure(IndexOutOfBounds(Int32Max))
  {
    assert FirstOutOfRange([Int32Min], out.channels) == Some(0);
  }
}
