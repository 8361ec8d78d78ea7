/** The host image container, reduced to what the pipeline uses: a
    five-dimensional pixel buffer addressed by (channel, x, y, slice, frame).
    Indices here are 0-based; the container's own positions are these plus 1. */
module Hyperstack {

  /** One 2D plane, indexed `[x][y]`. */
  type Plane<T> = seq<seq<T>>

  /** A hyperstack. `planes[c][z][t]` is the plane of channel c, depth
      slice z and time frame t. */
  datatype Image<T> = Image(
    channels: nat,
    width: nat,
    height: nat,
    slices: nat,
    frames: nat,
    planes: seq<seq<seq<Plane<T>>>>)

  predicate IsPlane<T>(p: Plane<T>, width: nat, height: nat) {
    |p| == width && forall x | 0 <= x < width :: |p[x]| == height
  }

  /** The buffer has exactly the extent its dimensions announce. */
  predicate Valid<T>(img: Image<T>) {
    && |img.planes| == img.channels
    && (forall c | 0 <= c < img.channels :: |img.planes[c]| == img.slices)
    && (forall c, z | 0 <= c < img.channels && 0 <= z < img.slices ::
          |img.planes[c][z]| == img.frames)
    && (forall c, z, t | 0 <= c < img.channels && 0 <= z < img.slices && 0 <= t < img.frames ::
          IsPlane(img.planes[c][z][t], img.width, img.height))
  }

  predicate SameDims<T>(a: Image<T>, b: Image<T>) {
    && a.channels == b.channels
    && a.width == b.width
    && a.height == b.height
    && a.slices == b.slices
    && a.frames == b.frames
  }

  function Pixel<T>(img: Image<T>, c: nat, x: nat, y: nat, z: nat, t: nat): T
    requires Valid(img)
    requires c < img.channels && x < img.width && y < img.height
    requires z < img.slices && t < img.frames
  {
    img.planes[c][z][t][x][y]
  }

  /** A new hyperstack of the given dimensions with every pixel `zero`. */
  function CreateHyperStack<T>(channels: nat, width: nat, height: nat, slices: nat, frames: nat, zero: T)
    : (r: Image<T>)
    ensures Valid(r)
    ensures r.channels == channels && r.width == width && r.height == height
    ensures r.slices == slices && r.frames == frames
    ensures forall c: nat, x: nat, y: nat, z: nat, t: nat | c < channels && x < width && y < height && z < slices && t < frames ::
              Pixel(r, c, x, y, z, t) == zero
  {
    var plane := seq(width, _ => seq(height, _ => zero));
    Image(channels, width, height, slices, frames,
          seq(channels, _ => seq(slices, _ => seq(frames, _ => plane))))
  }

  /** The single-slice, single-frame substack holding every channel at
      (z, t). */
  function ExtractSlice<T>(img: Image<T>, z: nat, t: nat): (r: Image<T>)
    requires Valid(img) && z < img.slices && t < img.frames
    ensures Valid(r)
    ensures r.channels == img.channels && r.width == img.width && r.height == img.height
    ensures r.slices == 1 && r.frames == 1
    ensures forall c | 0 <= c < r.channels :: r.planes[c][0][0] == img.planes[c][z][t]
  {
    Image(img.channels, img.width, img.height, 1, 1,
          seq(img.channels, c requires 0 <= c < img.channels => [[img.planes[c][z][t]]]))
  }

  /** Replaces the plane at (c, z, t). */
  function SetPlane<T>(img: Image<T>, c: nat, z: nat, t: nat, p: Plane<T>): (r: Image<T>)
    requires Valid(img) && c < img.channels && z < img.slices && t < img.frames
    requires IsPlane(p, img.width, img.height)
    ensures Valid(r) && SameDims(r, img)
    ensures r.planes[c][z][t] == p
    ensures forall c', z', t' | 0 <= c' < r.channels && 0 <= z' < r.slices && 0 <= t' < r.frames
              && (c', z', t') != (c, z, t) :: r.planes[c'][z'][t'] == img.planes[c'][z'][t']
  {
    var row := img.planes[c];
    var col := row[z];
    img.(planes := img.planes[c := row[z := col[t := p]]])
  }

  /** Two valid hyperstacks of the same dimensions that agree on every pixel
      are the same value. */
  lemma {:induction false} Extensionality<T>(a: Image<T>, b: Image<T>)
    requires Valid(a) && Valid(b) && SameDims(a, b)
    requires forall c: nat, x: nat, y: nat, z: nat, t: nat | c < a.channels && x < a.width && y < a.height
               && z < a.slices && t < a.frames :: Pixel(a, c, x, y, z, t) == Pixel(b, c, x, y, z, t)
    ensures a == b
  {
    forall c, z, t | 0 <= c < a.channels && 0 <= z < a.slices && 0 <= t < a.frames
      ensures a.planes[c][z][t] == b.planes[c][z][t]
    {
      var p, q := a.planes[c][z][t], b.planes[c][z][t];
      forall x | 0 <= x < a.width
        ensures p[x] == q[x]
      {
        assert forall y | 0 <= y < a.height :: p[x][y] == Pixel(a, c, x, y, z, t);
        assert forall y | 0 <= y < a.height :: q[x][y] == Pixel(b, c, x, y, z, t);
      }
    }
    forall c, z | 0 <= c < a.channels && 0 <= z < a.slices
      ensures a.planes[c][z] == b.planes[c][z]
    {
    }
    forall c | 0 <= c < a.channels
      ensures a.planes[c] == b.planes[c]
    {
    }
  }
}
