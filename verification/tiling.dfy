/** Deciding whether an image must be cut into model-sized tiles, and the
    calls into the external tiler on the way in and on the way out. */
module Tiling {
  import opened Wrappers
  import opened Hyperstack
  import opened Tensors

  datatype TileAction =
    | Tile          // larger than the model on some axis
    | PassThrough   // no larger on either axis, equal on at least one
    | Undersized    // smaller on both axes

  /** The three-way decision on the image size against the model input
      size. The branches are tried in order: larger on either axis tiles;
      then equal on either axis (one is enough) passes the image through;
      anything else is undersized. */
  function Decide(width: nat, height: nat, tileWidth: nat, tileHeight: nat): (a: TileAction)
    ensures a == Tile <==> width > tileWidth || height > tileHeight
    ensures a == PassThrough <==> width <= tileWidth && height <= tileHeight
                                  && (width == tileWidth || height == tileHeight)
    ensures a == Undersized <==> width < tileWidth && height < tileHeight
  {
    if width > tileWidth || height > tileHeight then Tile
    else if width == tileWidth || height == tileHeight then PassThrough
    else Undersized
  }

  /** The external tiler, whose source is not part of this model:
      `tileCount(fullSize, overlap, tileSize)`, `tile(image, xTiles, yTiles,
      tileW, tileH, overlapX, overlapY)` and `stitch(image, xTiles, yTiles,
      tileW, tileH, overlapX, overlapY, outW, outH)`, all along the frame axis. */
  datatype Tiler<!T> = Tiler(
    tileCount: (int, int, int) -> int,
    tile: (Image<T>, int, int, int, int, int, int) -> Image<T>,
    stitch: (Image<T>, int, int, int, int, int, int, int, int) -> Image<T>)

  /** Number of tiles along x and along y. */
  datatype Geometry = Geometry(xTiles: int, yTiles: int)

  function TileGeometry<T>(tiler: Tiler<T>, fullWidth: nat, fullHeight: nat, overlap: int,
                           tileWidth: nat, tileHeight: nat): Geometry
  {
    Geometry(tiler.tileCount(fullWidth, overlap, tileWidth), tiler.tileCount(fullHeight, overlap, tileHeight))
  }

  /** The image the slice loop runs over: a tiled copy, the input itself,
      or no image at all (the source returns null). */
  function TileImage<T>(img: Image<T>, input: Shape, overlap: int, tiler: Tiler<T>): (r: Option<Image<T>>)
    ensures r.None? <==> img.width < input.width && img.height < input.height
    ensures (img.width > input.width || img.height > input.height) ==>
              var g := TileGeometry(tiler, img.width, img.height, overlap, input.width, input.height);
              r == Some(tiler.tile(img, g.xTiles, g.yTiles, input.width, input.height, overlap, overlap))
    ensures (&& img.width <= input.width && img.height <= input.height
             && (img.width == input.width || img.height == input.height)) ==> r == Some(img)
  {
    match Decide(img.width, img.height, input.width, input.height)
    case Tile =>
      var g := TileGeometry(tiler, img.width, img.height, overlap, input.width, input.height);
      Some(tiler.tile(img, g.xTiles, g.yTiles, input.width, input.height, overlap, overlap))
    case PassThrough => Some(img)
    case Undersized => None
  }

  /** Reassembles the filled stack at the original size, recomputing the
      tile counts from the original size and the stack's own tile size. */
  function StitchImage<T>(tiled: Image<T>, overlap: int, outWidth: nat, outHeight: nat, tiler: Tiler<T>)
    : (r: Image<T>)
    ensures r == tiler.stitch(tiled, tiler.tileCount(outWidth, overlap, tiled.width),
                              tiler.tileCount(outHeight, overlap, tiled.height),
                              tiled.width, tiled.height, overlap, overlap, outWidth, outHeight)
  {
    var g := TileGeometry(tiler, outWidth, outHeight, overlap, tiled.width, tiled.height);
    tiler.stitch(tiled, g.xTiles, g.yTiles, tiled.width, tiled.height, overlap, overlap, outWidth, outHeight)
  }

  /** When the stack keeps the tile size, stitching recomputes exactly the
      tile counts the tiling step used, so the two agree on the geometry. */
  lemma StitchUsesTilingGeometry<T>(img: Image<T>, input: Shape, overlap: int, tiler: Tiler<T>,
                                    filled: Image<T>)
    requires Decide(img.width, img.height, input.width, input.height) == Tile
    requires filled.width == input.width && filled.height == input.height
    ensures var g := TileGeometry(tiler, img.width, img.height, overlap, input.width, input.height);
            && TileImage(img, input, overlap, tiler)
               == Some(tiler.tile(img, g.xTiles, g.yTiles, input.width, input.height, overlap, overlap))
            && StitchImage(filled, overlap, img.width, img.height, tiler)
               == tiler.stitch(filled, g.xTiles, g.yTiles, input.width, input.height, overlap, overlap,
                               img.width, img.height)
  {
  }
}
