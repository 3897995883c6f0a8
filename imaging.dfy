/** The imaging backend's side of the conversion. A raster has a width, a
    height and its rows of 8-bit RGB pixels; its `getdata()` is the row-major
    stream of those pixels. The backend's decoders, encoders and filter numerics
    are not modelled: resizing is modelled by its geometry, with the colours the
    filter computes left abstract, and magnification by the block law the
    library documents. */
module Imaging {
  import opened Pixels
  import opened Streams

  datatype Raster = Raster(width: nat, height: nat, rows: seq<seq<Rgb8>>)
  {
    ghost predicate Valid()
    {
      |rows| == height && forall r :: 0 <= r < |rows| ==> |rows[r]| == width
    }
  }

  type ValidRaster = r: Raster | r.Valid() witness Raster(0, 0, [])

  /** A positive dimension: the backend refuses to resize to a zero width or height. */
  type Extent = n: nat | n > 0 witness 1

  /** A requested size, as the pair (width, height). */
  datatype Size = Size(width: Extent, height: Extent)

  /** A resampling filter: the colour it gives to output pixel (row, col) when
      the source raster is resized to the given size. */
  type Filter = (ValidRaster, Size, nat, nat) -> Rgb8

  /** The pixel at (row, col) of a valid raster. */
  function At(img: ValidRaster, row: nat, col: nat): Rgb8
    requires row < img.height && col < img.width
  {
    img.rows[row][col]
  }

  /** `getdata()`: the pixels in row-major order. */
  function GetData(img: ValidRaster): (data: seq<Rgb8>)
    ensures |data| == img.height * img.width
    ensures forall r: nat, c: nat :: r < img.height && c < img.width ==>
      data[Offset(img.height, img.width, r, c)] == At(img, r, c)
  {
    FlattenLength(img.rows, img.width);
    forall r: nat, c: nat | r < img.height && c < img.width
      ensures Flatten(img.rows)[Offset(img.height, img.width, r, c)] == At(img, r, c)
    {
      FlattenAt(img.rows, img.width, r, c);
    }
    Flatten(img.rows)
  }

  /** `resize(size, resample = filter)`: the result has exactly the requested size;
      its colours are whatever the filter computes. */
  function Resize(src: ValidRaster, size: Size, filter: Filter): (out: ValidRaster)
    ensures out.width == size.width && out.height == size.height
    ensures forall row: nat, col: nat :: row < size.height && col < size.width ==>
      At(out, row, col) == filter(src, size, row, col)
  {
    Raster(size.width, size.height,
      seq(size.height, row requires 0 <= row < size.height =>
        seq(size.width, col requires 0 <= col < size.width => filter(src, size, row, col))))
  }

  /** Euclidean division is determined by quotient and remainder. */
  lemma DivModUnique(x: int, w: int, q: int, m: int)
    requires w > 0 && 0 <= m < w && x == q * w + m
    ensures x / w == q && x % w == m
  {
    var q0, m0 := x / w, x % w;
    assert (q - q0) * w == m0 - m;
    if q < q0 { MulMono(q - q0, -1, w); }
    if q > q0 { MulMono(1, q - q0, w); }
  }

  /** A position below n*s lies in one of the first n blocks of size s. */
  lemma DivBelow(x: nat, n: nat, s: nat)
    requires s >= 1 && x < n * s
    ensures x / s < n
  {
    MulCancelLess(x / s, n, s);
  }

  /** Integer magnification with the BOX filter: the output is `scale` times
      wider and higher, and its pixel (row, col) shows source pixel
      (row / scale, col / scale). */
  function Upscale(src: ValidRaster, scale: nat): (out: ValidRaster)
    requires scale >= 1
    ensures out.width == src.width * scale && out.height == src.height * scale
  {
    Raster(src.width * scale, src.height * scale,
      seq(src.height * scale, row requires 0 <= row < src.height * scale => UpscaledRow(src, scale, row)))
  }

  /** Row `row` of the magnified raster. */
  function UpscaledRow(src: ValidRaster, scale: nat, row: nat): (line: seq<Rgb8>)
    requires scale >= 1 && row < src.height * scale
    ensures |line| == src.width * scale
  {
    DivBelow(row, src.height, scale);
    seq(src.width * scale, col requires 0 <= col < src.width * scale =>
      DivBelow(col, src.width, scale); src.rows[row / scale][col / scale])
  }

  /** Output pixel (row, col) of a magnification shows source pixel (row/scale, col/scale). */
  lemma UpscaleAt(src: ValidRaster, scale: nat, row: nat, col: nat)
    requires scale >= 1 && row < src.height * scale && col < src.width * scale
    ensures row / scale < src.height && col / scale < src.width
    ensures At(Upscale(src, scale), row, col) == At(src, row / scale, col / scale)
  {
    DivBelow(row, src.height, scale);
    DivBelow(col, src.width, scale);
    assert Upscale(src, scale).rows[row] == UpscaledRow(src, scale, row);
  }

  /** Each source pixel (r, c) fills the whole block of rows r*scale .. r*scale+scale-1
      and columns c*scale .. c*scale+scale-1 of the magnified raster. */
  lemma UpscaleBlock(src: ValidRaster, scale: nat, r: nat, c: nat, dr: nat, dc: nat)
    requires scale >= 1 && r < src.height && c < src.width && dr < scale && dc < scale
    ensures r * scale + dr < Upscale(src, scale).height
    ensures c * scale + dc < Upscale(src, scale).width
    ensures At(Upscale(src, scale), r * scale + dr, c * scale + dc) == At(src, r, c)
  {
    MulMono(r + 1, src.height, scale);
    MulMono(c + 1, src.width, scale);
    DivModUnique(r * scale + dr, scale, r, dr);
    DivModUnique(c * scale + dc, scale, c, dc);
    UpscaleAt(src, scale, r * scale + dr, c * scale + dc);
  }
}
