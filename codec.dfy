/** The conversions between the library's images and the imaging backend's
    rasters (`pil_to_pixart`, `pixart_to_pil`), and what `save_img` and
    `save_anim` hand to the backend and report to the operator. */
module Codec {
  import opened Pixels
  import opened Streams
  import opened Imaging

  datatype Option<T> = None | Some(value: T)

  /** `pil_to_pixart` after the optional resize: the raster's `getdata()` stream
      is reshaped to height-by-width and every pixel becomes a triple of ints. */
  function Decode(raster: ValidRaster): (img: Image)
    ensures |img| == raster.height
    ensures forall r :: 0 <= r < |img| ==> |img[r]| == raster.width
    ensures Rectangular(img) && AllInByteRange(img)
    ensures forall r: nat, c: nat :: r < raster.height && c < raster.width ==>
      img[r][c] == FromRgb8(At(raster, r, c))
  {
    var arr := Reshape(GetData(raster), raster.height, raster.width);
    seq(raster.height, r requires 0 <= r < raster.height =>
      seq(raster.width, c requires 0 <= c < raster.width => FromRgb8(arr[r][c])))
  }

  /** `pil_to_pixart(pil_img, size, resample_filter)`: resize first when a size is given. */
  function PilToPixart(raster: ValidRaster, size: Option<Size>, filter: Filter): (img: Image)
    ensures Rectangular(img) && AllInByteRange(img)
    ensures |img| == if size.Some? then size.value.height else raster.height
    ensures forall r :: 0 <= r < |img| ==>
      |img[r]| == if size.Some? then size.value.width else raster.width
    ensures size.Some? ==> forall r: nat, c: nat :: r < size.value.height && c < size.value.width ==>
      img[r][c] == FromRgb8(filter(raster, size.value, r, c))
    ensures size.None? ==> forall r: nat, c: nat :: r < raster.height && c < raster.width ==>
      img[r][c] == FromRgb8(At(raster, r, c))
  {
    match size
    case None => Decode(raster)
    case Some(s) => Decode(Resize(raster, s, filter))
  }

  /** What `pixart_to_pil` can convert: a rectangular image of in-range pixels
      with at least one row and one column (numpy's uint8 cast of anything else
      is not modelled, and the backend refuses an image without pixels). */
  ghost predicate Encodable(img: Image)
  {
    |img| > 0 && |img[0]| > 0 && Rectangular(img) && AllInByteRange(img)
  }

  /** `np.asarray(img, dtype=np.uint8)` followed by `Image.fromarray`. */
  function Encode(img: Image): (out: ValidRaster)
    requires Encodable(img)
    ensures out.height == |img| && out.width == |img[0]|
    ensures forall r: nat, c: nat :: r < out.height && c < out.width ==> At(out, r, c) == ToRgb8(img[r][c])
  {
    Raster(|img[0]|, |img|,
      seq(|img|, r requires 0 <= r < |img| =>
        seq(|img[0]|, c requires 0 <= c < |img[0]| => ToRgb8(img[r][c]))))
  }

  /** The factor `pixart_to_pil` actually magnifies by: it resizes only when scale > 1. */
  function EffectiveScale(scale: int): (s: nat)
    ensures s >= 1
    ensures scale >= 1 ==> s == scale
  {
    if scale > 1 then scale else 1
  }

  /** `pixart_to_pil(img, scale)`. */
  function PixartToPil(img: Image, scale: int): (out: ValidRaster)
    requires Encodable(img)
    ensures out.height == |img| * EffectiveScale(scale) && out.width == |img[0]| * EffectiveScale(scale)
  {
    var raster := Encode(img);
    if scale > 1 then Upscale(raster, scale) else raster
  }

  /** The advisory messages the save functions print; they never stop a save. */
  datatype Warning = FrameLimit(frames: nat) | TooTall | TooWide

  /** The warnings about the final size: height first, then width. */
  function SizeWarnings(height: int, width: int, scale: int): (ws: seq<Warning>)
    ensures TooTall in ws <==> height * scale > 1000
    ensures TooWide in ws <==> width * scale > 1000
    ensures forall k :: 0 <= k < |ws| ==> !ws[k].FrameLimit?
    ensures |ws| <= 2
    ensures |ws| == 2 ==> ws == [TooTall, TooWide]
  {
    (if height * scale > 1000 then [TooTall] else []) + (if width * scale > 1000 then [TooWide] else [])
  }

  /** What a save hands to the backend: a still PNG or a looping GIF. */
  datatype SavedFile =
    | Png(filename: string, image: ValidRaster)
    | Gif(filename: string, frames: seq<ValidRaster>, duration: int, loop: nat)

  datatype SaveResult = SaveResult(warnings: seq<Warning>, file: SavedFile)

  /** `save_img(img, filename, scale)`: warns when the saved image will be higher
      or wider than 1000 pixels and writes the magnified raster as PNG anyway. */
  function SaveImg(img: Image, filename: string, scale: int): (out: SaveResult)
    requires Encodable(img)
    ensures out.warnings == SizeWarnings(|img|, |img[0]|, scale)
    ensures out.file.Png? && out.file.filename == filename
    ensures out.file.image == PixartToPil(img, scale)
  {
    SaveResult(SizeWarnings(|img|, |img[0]|, scale), Png(filename, PixartToPil(img, scale)))
  }

  /** `save_anim(imgs, filename, scale, duration)`: warns above 60 frames and,
      from the first frame only, about the final size; writes every frame,
      looping forever, regardless. */
  function SaveAnim(imgs: seq<Image>, filename: string, scale: int, duration: int): (out: SaveResult)
    requires |imgs| > 0 && |imgs[0]| > 0
    requires forall k :: 0 <= k < |imgs| ==> Encodable(imgs[k])
    ensures out.warnings ==
      (if |imgs| > 60 then [FrameLimit(|imgs|)] else []) + SizeWarnings(|imgs[0]|, |imgs[0][0]|, scale)
    ensures out.file.Gif? && out.file.filename == filename
    ensures out.file.duration == duration && out.file.loop == 0
    ensures |out.file.frames| == |imgs|
    ensures forall k :: 0 <= k < |imgs| ==> out.file.frames[k] == PixartToPil(imgs[k], scale)
  {
    var frameWarning := if |imgs| > 60 then [FrameLimit(|imgs|)] else [];
    var frames := seq(|imgs|, k requires 0 <= k < |imgs| => PixartToPil(imgs[k], scale));
    SaveResult(frameWarning + SizeWarnings(|imgs[0]|, |imgs[0][0]|, scale), Gif(filename, frames, duration, 0))
  }

  /** `save_img` is silent exactly when the saved image is at most 1000 pixels
      high and wide. */
  lemma SaveImgSilent(img: Image, filename: string, scale: int)
    requires Encodable(img)
    ensures SaveImg(img, filename, scale).warnings == [] <==>
      |img| * scale <= 1000 && |img[0]| * scale <= 1000
  {
  }

  /** `save_anim` is silent exactly when the animation has at most 60 frames and
      its first frame, scaled, is at most 1000 pixels high and wide. */
  lemma SaveAnimSilent(imgs: seq<Image>, filename: string, scale: int, duration: int)
    requires |imgs| > 0 && |imgs[0]| > 0
    requires forall k :: 0 <= k < |imgs| ==> Encodable(imgs[k])
    ensures SaveAnim(imgs, filename, scale, duration).warnings == [] <==>
      |imgs| <= 60 && |imgs[0]| * scale <= 1000 && |imgs[0][0]| * scale <= 1000
  {
    var out := SaveAnim(imgs, filename, scale, duration);
    if |imgs| > 60 {
      assert out.warnings[0] == FrameLimit(|imgs|);
    }
  }

  /** Decoding an encoded image gives the image back. */
  lemma EncodeDecode(img: Image)
    requires Encodable(img)
    ensures Decode(Encode(img)) == img
  {
    var back := Decode(Encode(img));
    forall r | 0 <= r < |img| ensures back[r] == img[r] {
      assert |back[r]| == |img[r]|;
    }
  }

  /** Encoding a decoded raster with pixels gives the raster back. */
  lemma DecodeEncode(raster: ValidRaster)
    requires raster.height > 0 && raster.width > 0
    ensures Encodable(Decode(raster)) && Encode(Decode(raster)) == raster
  {
    var back := Encode(Decode(raster));
    forall r | 0 <= r < raster.height ensures back.rows[r] == raster.rows[r] {
      assert |back.rows[r]| == |raster.rows[r]|;
    }
  }

  lemma EncodeAt(img: Image, r: nat, c: nat)
    requires Encodable(img) && r < |img| && c < |img[0]|
    ensures At(Encode(img), r, c) == ToRgb8(img[r][c])
  {
  }

  /** Each output pixel of `pixart_to_pil` shows the source pixel whose
      scale-by-scale block it lies in (the block is a single pixel when scale <= 1). */
  lemma PixartToPilAt(img: Image, scale: int, row: nat, col: nat)
    requires Encodable(img)
    requires row < |img| * EffectiveScale(scale) && col < |img[0]| * EffectiveScale(scale)
    ensures row / EffectiveScale(scale) < |img| && col / EffectiveScale(scale) < |img[0]|
    ensures At(PixartToPil(img, scale), row, col) ==
            ToRgb8(img[row / EffectiveScale(scale)][col / EffectiveScale(scale)])
  {
    var raster := Encode(img);
    if scale > 1 {
      assert EffectiveScale(scale) == scale;
      UpscaleAt(raster, scale, row, col);
      EncodeAt(img, row / scale, col / scale);
      assert PixartToPil(img, scale) == Upscale(raster, scale);
    } else {
      assert EffectiveScale(scale) == 1;
      assert row / 1 == row && col / 1 == col;
      assert PixartToPil(img, scale) == raster;
    }
  }

  /** Each source pixel becomes a scale-by-scale square of its colour. */
  lemma PixartToPilBlock(img: Image, scale: int, r: nat, c: nat, dr: nat, dc: nat)
    requires Encodable(img) && scale > 1
    requires r < |img| && c < |img[0]| && dr < scale && dc < scale
    ensures r * scale + dr < PixartToPil(img, scale).height
    ensures c * scale + dc < PixartToPil(img, scale).width
    ensures At(PixartToPil(img, scale), r * scale + dr, c * scale + dc) == ToRgb8(img[r][c])
  {
    UpscaleBlock(Encode(img), scale, r, c, dr, dc);
    EncodeAt(img, r, c);
  }

  /** The scale law of a save: reading back what `save_img` writes gives an
      image `scale` times higher and wider whose pixel (r, c) is the source
      pixel (r / scale, c / scale), so every source pixel became a
      scale-by-scale block of its colour. */
  lemma SaveImgReload(img: Image, filename: string, scale: int, r: nat, c: nat)
    requires Encodable(img) && scale >= 1
    requires r < |img| * scale && c < |img[0]| * scale
    ensures |Decode(SaveImg(img, filename, scale).file.image)| == |img| * scale
    ensures |Decode(SaveImg(img, filename, scale).file.image)[r]| == |img[0]| * scale
    ensures r / scale < |img| && c / scale < |img[0]|
    ensures Decode(SaveImg(img, filename, scale).file.image)[r][c] == img[r / scale][c / scale]
  {
    assert SaveImg(img, filename, scale).file.image == PixartToPil(img, scale);
    assert EffectiveScale(scale) == scale;
    PixartToPilAt(img, scale, r, c);
  }

  /** With a scale of at most 1 the image is passed through unscaled, and
      reading it back gives the image itself. */
  lemma PixartToPilUnscaled(img: Image, scale: int)
    requires Encodable(img) && scale <= 1
    ensures Decode(PixartToPil(img, scale)) == img
  {
    EncodeDecode(img);
  }
}
