# CSEPixelArt in Dafny

This project models CSEPixelArt, a small teaching library for pixel art, and
the four example programs built on it.

## The library's image format

An image is a list of rows. Each row is a list of pixels, and a pixel is an
(R, G, B) triple of integers between 0 and 255. User programs:

- create images with `create_img` and clone them with `copy_img`;
- edit them in place with `img[row][col] = pixel`;
- load pictures through the imaging backend;
- save an image as a PNG or a list of images as a looping GIF, optionally
  magnified by an integer scale.

## How the model represents it

**Pixels** (`Pixels`). `Pixel` is a triple of unbounded integers. `Image` is a
`seq<seq<Pixel>>` value. `Rgb8` is the backend's 8-bit pixel. `FromRgb8` and
`ToRgb8` are the `int(...)` and `uint8` conversions between the two.

**Live images** (`Grids`). A live image, `Grid`, is a `seq<array<Pixel>>`: one
array per row list.

- Row identity is kept. `img[r][c] := p` is an array update, so two images
  share state exactly when they share a row array.
- The outer list is never changed after it is built, so it is a sequence of row
  references.
- `Value(g)` is the pixel content a live image holds at a given moment.
- `CreateImg`, `CopyImg`, `Height` and `Width` are the library's constructors
  and accessors.

**Row-major streams** (`Streams`). These model the backend's `getdata()` stream
and numpy's `reshape` of it into rows.

**The backend** (`Imaging`).

- A `Raster` has a width, a height and rows of `Rgb8`.
- `Resize` is modelled by its geometry. Its colours come from an abstract
  filter.
- `Upscale` is integer magnification with the BOX filter: output pixel
  (r, c) shows source pixel (r / scale, c / scale).

**The conversions** (`Codec`).

- `pil_to_pixart` is `PilToPixart` and `Decode`.
- `pixart_to_pil` is `PixartToPil` and `Encode`.
- `save_img` and `save_anim` return what they hand to the backend, together
  with the warnings they would print.

**Loading** (`Loader`). `load_img` and `load_anim` take the decoded file as an
`ImageFile` value. That value says whether the file is animated and which
frames it holds.

**The example programs** (`Example1` to `Example4`). Each program's `main()` is
a method `Run`. The loops are split into methods along the program's own loop
structure: the outer loop, and the inner loop or the body of the inner loop.
Each `Run` states the exact final images, and for each save the file name, the
converted images it holds, the warnings and, for a GIF, the frame duration.

## Model

| member | source | states |
|---|---|---|
| `Pixels.FromRgb8` | CSEPixelArt.py:201 | converting a backend pixel to a triple of ints gives channels in 0..255, equal to the 8-bit channels |
| `Pixels.ToRgb8` | CSEPixelArt.py:212 | the uint8 conversion of an in-range pixel converts back to the same pixel |
| `Streams.Offset` | CSEPixelArt.py:196 | the row-major position of (row, col) in an h-by-w stream lies inside the stream |
| `Streams.Reshape` | CSEPixelArt.py:196 | reshaping a stream of h*w elements gives h rows of w, and element (r, c) is stream element r*w + c |
| `Streams.FlattenAt` | CSEPixelArt.py:196 | element (r, c) of rows of width w sits at position r*w + c of their concatenation |
| `Streams.FlattenLength` | CSEPixelArt.py:196 | h rows of width w concatenate to h*w elements |
| `Streams.ReshapeFlatten` | CSEPixelArt.py:196 | concatenating equal-width rows and reshaping gives the rows back |
| `Streams.FlattenReshape` | CSEPixelArt.py:196 | reshaping a stream and concatenating the rows gives the stream back |
| `Streams.OffsetSplit` | CSEPixelArt.py:196 | every stream position is the offset of row i / w, column i % w |
| `Imaging.GetData` | CSEPixelArt.py:196 | `getdata()` has height*width pixels, and pixel (r, c) of the raster is at its row-major offset |
| `Imaging.Resize` | CSEPixelArt.py:189-190 | the resized raster has exactly the requested width and height; each pixel is what the filter gives |
| `Imaging.Upscale` | CSEPixelArt.py:214-215 | BOX magnification makes the raster `scale` times wider and higher |
| `Imaging.UpscaleAt` | CSEPixelArt.py:232-233 | output pixel (r, c) of a magnification is source pixel (r / scale, c / scale) |
| `Imaging.UpscaleBlock` | CSEPixelArt.py:232-233 | each source pixel fills its whole scale-by-scale block of the output |
| `Imaging.DivModUnique` | CSEPixelArt.py:232-233 | proof helper for the block law: quotient and remainder of a block position identify the block and the offset within it |
| `Imaging.DivBelow` | CSEPixelArt.py:232-233 | proof helper for the block law: a position below n*s lies in one of the first n blocks of size s |
| `Codec.Decode` | CSEPixelArt.py:196-201 | the decoded image has the raster's height and width, is rectangular and in range, and its pixel (r, c) is raster pixel (r, c) as ints |
| `Codec.PilToPixart` | CSEPixelArt.py:182-203 | a rectangular image of in-range pixels; with a size, it is size.height rows of size.width pixels and pixel (r, c) is the filter's colour for (r, c) as a triple of ints; without one, it has the raster's height and width and pixel (r, c) is the raster's pixel (r, c) |
| `Codec.Encode` | CSEPixelArt.py:212-213 | the array conversion keeps the image's height and width and every pixel's channels |
| `Codec.EffectiveScale` | CSEPixelArt.py:214 | the factor actually applied is at least 1, and equals the scale whenever the scale is at least 1 |
| `Codec.PixartToPil` | CSEPixelArt.py:205-216 | the raster handed to the encoder is height*scale by width*scale for scale > 1, and unscaled otherwise |
| `Codec.SizeWarnings` | CSEPixelArt.py:238-243 | the height warning fires exactly when height*scale > 1000, and the width warning exactly when width*scale > 1000, in that order |
| `Codec.SaveImg` | CSEPixelArt.py:218-245 | `save_img` reports exactly the size warnings and always writes a PNG of the converted, magnified image under the given name |
| `Codec.SaveAnim` | CSEPixelArt.py:248-287 | `save_anim` warns about more than 60 frames and about the size of the first frame only; it always writes a looping GIF with every frame converted and the given duration |
| `Codec.SaveImgSilent` | CSEPixelArt.py:238-243 | `save_img` prints nothing exactly when the scaled height and width are both at most 1000 |
| `Codec.SaveAnimSilent` | CSEPixelArt.py:275-283 | `save_anim` prints nothing exactly when there are at most 60 frames and the scaled first frame is at most 1000 by 1000 |
| `Codec.EncodeDecode` | CSEPixelArt.py:196-213 | decoding an encoded in-range image gives the image back |
| `Codec.DecodeEncode` | CSEPixelArt.py:196-213 | encoding a decoded raster with at least one row and one column gives the raster back |
| `Codec.EncodeAt` | CSEPixelArt.py:212-213 | pixel (r, c) of the encoded raster is the 8-bit form of image pixel (r, c) |
| `Codec.PixartToPilAt` | CSEPixelArt.py:205-216 | output pixel (r, c) shows source pixel (r / s, c / s) for the effective scale s |
| `Codec.PixartToPilBlock` | CSEPixelArt.py:232-233 | for scale > 1, each source pixel becomes a scale-by-scale square of its colour |
| `Codec.SaveImgReload` | CSEPixelArt.py:232-245 | reading back a saved image gives height*scale rows of width*scale pixels, and pixel (r, c) is source pixel (r / scale, c / scale) |
| `Codec.PixartToPilUnscaled` | CSEPixelArt.py:214-216 | with scale at most 1 the image is passed through, and reading it back gives the image itself |
| `Grids.Value` | CSEPixelArt.py:7-9 | the content of a live image has one row per row list, equal to that list's current pixels |
| `Grids.Values` | CSEPixelArt.py:254-257 | the content of a list of live images is the content of each image, in order |
| `Grids.CreateImg` | CSEPixelArt.py:120-145 | exactly max(height, 0) new, distinct row lists, each of max(width, 0) pixels, all equal to the colour |
| `Grids.NewGrid` | CSEPixelArt.py:168 | rebuilding an image value row by row gives a live image with that content and new, distinct row lists |
| `Grids.NewGrids` | CSEPixelArt.py:112-116 | the appending loop gives one live image per value, in order, each with the value's content, new row lists and no row shared with another image |
| `Grids.CopyImg` | CSEPixelArt.py:147-168 | the copy is pixel-for-pixel equal and has the same shape, and its row lists are new and shared with neither itself nor the original |
| `Grids.Height` | CSEPixelArt.py:170-174 | the height is the number of rows |
| `Grids.Width` | CSEPixelArt.py:176-180 | the width is the length of row 0, which is every row's length in a rectangular image; it needs a row |
| `Loader.LoadImg` | CSEPixelArt.py:47-93 | the loaded image is the converted first frame (optionally resized), with its own row lists |
| `Loader.LoadAnim` | CSEPixelArt.py:95-118 | one converted image per frame, in frame order, when animated, otherwise one image; no two images share a row list |
| `Example1.Final` | example-1.py:7-13 | the final picture is 16 by 16 |
| `Example1.CountAppend` | example-1.py:9-13 | counting a colour over a concatenation adds the counts of the parts |
| `Example1.CountInFlatten` | example-1.py:9-13 | counting over the rows equals counting over their row-major concatenation |
| `Example1.PatternCount` | example-1.py:11-13 | among the first n visited pixels, exactly n / 3 are black |
| `Example1.BlackPixels` | example-1.py:9-13 | the final picture has exactly 85 black pixels |
| `Example1.FinalAt` | example-1.py:11-13 | final pixel (r, c) is black exactly when 16*r + c + 1 is a multiple of 3, and white otherwise |
| `Example1.IsFinal` | example-1.py:9-13 | a 16-by-16 image laid out by the counting pattern is the final picture |
| `Example1.FinalEncodable` | example-1.py:15-18 | the final picture can be saved |
| `Example1.PaintRow` | example-1.py:10-13 | the inner loop advances the count by 16 and paints pixel c of the row black exactly when 16*row + c + 1 is a multiple of 3 |
| `Example1.Paint` | example-1.py:7-13 | the image stays 16 by 16, and its final pixel (r, c) is black exactly when 16*r + c + 1 is a multiple of 3, white otherwise |
| `Example1.Run` | example-1.py:3-18 | the final image has 85 black pixels; `example-1.png` holds it converted at scale 1 (16 by 16) and `example-1-big.png` at scale 10 (160 by 160), with no warnings |
| `Example2.Frame` | example-2.py:9-14 | every frame is 16 by 16 |
| `Example2.FrameStep` | example-2.py:11-13 | consecutive frames differ exactly in row k-1, which turns red |
| `Example2.FirstAndLast` | example-2.py:9-14 | the first frame is all white and the last all red |
| `Example2.IsFrame` | example-2.py:11-13 | a 16-by-16 image whose first k rows are red and the rest white is frame k |
| `Example2.FramesEncodable` | example-2.py:16-19 | every frame can be saved |
| `Example2.ShowFrames` | example-2.py:9-14 | live images holding the frame pattern have the frames' content |
| `Example2.FillRow` | example-2.py:12-13 | the inner loop makes every pixel of the row red |
| `Example2.Animate` | example-2.py:9-14 | there are 17 frames, and frame k has rows before k red and the rest white; appending copies keeps earlier frames unchanged |
| `Example2.Run` | example-2.py:3-19 | the 17 frames are frames 0 to 16; `example-2.gif` and `example-2-big.gif` hold frame k converted at scale 1 and 10 as their frame k, 17 frames of 100 ms, with no warnings |
| `Example3.CeilDiv` | example-3.py:19 | the ceiling of a / b: the least q with q*b >= a |
| `Example3.SkipIsFive` | example-3.py:15-19 | skip = ceil(256 / 59) = 5 |
| `Example3.FrameBudget` | example-3.py:17-28 | snapshotting every ceil(total / (max_frames - 1)) pixels gives at most max_frames frames, the initial one included |
| `Example3.Painted` | example-3.py:22-26 | the picture after n pixels is 16 by 16 |
| `Example3.ShowsPainted` | example-3.py:22-26 | a live image holding the painting pattern has the picture's content |
| `Example3.PaintedEncodable` | example-3.py:30-33 | every partly painted picture can be saved |
| `Example3.PaintedStep` | example-3.py:25-26 | painting one more pixel changes exactly pixel n (row n / 16, column n % 16) to the colour of count n + 1 |
| `Example3.Step` | example-3.py:25-28 | one inner-loop step paints the next pixel and appends a snapshot exactly when the count reaches a multiple of skip; earlier snapshots are unaffected |
| `Example3.PaintRow` | example-3.py:24-28 | one row of steps advances the count by 16 and keeps every snapshot showing the picture at its count |
| `Example3.Animate` | example-3.py:20-28 | there are 52 frames; frame 0 is the live image itself, which ends fully painted, and frame j >= 1 shows the first 5j pixels painted |
| `Example3.FirstFrameNotBlank` | example-3.py:20-21 | as written, the first frame is not the blank picture whenever the first colour is not white |
| `Example3.AnimateFromBlank` | example-3.py:20-28 | with a copy as the first frame, every frame j shows the first 5j pixels painted and none is the live image |
| `Example3.BlankFirstFrame` | example-3.py:20-28 | with a copy as the first frame, the animation opens on the all-white picture |
| `Example3.ShowFrames` | example-3.py:20-28 | live images holding the painting pattern have the pictures' content |
| `Example3.FramesEncodable` | example-3.py:30-33 | every frame of the animation can be saved |
| `Example3.Run` | example-3.py:11-33 | 52 frames, within the limit of 60; frame 0 is the finished picture and frame j >= 1 the picture after 5j pixels; `example-3.gif` and `example-3-big.gif` hold these frames converted at scale 1 and 10, 52 frames of 100 ms, with no warnings |
| `Example4.LaserEyes` | example-4.py:9-13 | pixels (8,5), (8,6), (7,10) and (7,11) become neon green, and every other pixel is kept |
| `Example4.LaserEyesEncodable` | example-4.py:16-19 | painting the eyes keeps an image saveable |
| `Example4.AddLaserEyes` | example-4.py:8-13 | the copy has laser eyes, and the original image is unchanged and shares no row with the copy |
| `Example4.Run` | example-4.py:3-19 | the animation is [cat, cat with laser eyes], with the cat as loaded and resized to 16 by 16; `example-4.gif` and `example-4-big.gif` hold these two images converted at scale 1 and 10, as 2 frames of 300 ms, with no warnings |

## Findings

| source | as written | input that shows it | evidently intended | confidence | as-written member | corrected member |
|---|---|---|---|---|---|---|
| example-3.py:20-21 | `anim = [frame]` puts the live image itself in the animation, and the loop then paints that image, so the GIF opens on the finished picture | any colour map whose first colour, `hsv2rgb(1/256, 1, 1)`, is not white: frame 0 shows all 256 pixels painted, and frame 1 shows 5 | possibly intended: the animation opens on the blank white image, as `anim = [copy_img(frame)]` would give | low, not executed | `Example3.FirstFrameNotBlank` | `Example3.AnimateFromBlank` |

`Example3.Run` keeps the program as written. `Example3.BlankFirstFrame`
states the blank opening frame of `Example3.AnimateFromBlank`. There is a
trade-off. Copies are taken at counts 5, 10, ..., 255, and 256 is not a
multiple of 5, so in the program as written the aliased frame 0 is the only
frame that shows all 256 pixels painted; in the looping GIF it appears between
frame 51 and frame 1. `Example3.AnimateFromBlank` never shows the last pixel
painted. Which behaviour the author wanted is not evident from the program.

## Scales below 1

The save functions ask for a scale that is an integer of at least 1
(CSEPixelArt.py:232, CSEPixelArt.py:266), but nothing checks it.
`pixart_to_pil` (CSEPixelArt.py:214) magnifies only when `scale > 1`, so a
scale of 0 or a negative scale saves the image unscaled. The size checks
(CSEPixelArt.py:238-243, CSEPixelArt.py:275-283) compare `height * scale` and
`width * scale` with 1000, which such a scale never exceeds, so no size warning
fires. The model follows the code: see `Codec.EffectiveScale`,
`Codec.PixartToPil` and `Codec.PixartToPilUnscaled`.

## Left out

- Opening and decoding files (`Image.open`, `seek`) is done by the imaging
  backend. `ImageFile` stands for its result: the `is_animated` flag and the
  frames, already in RGB.
- The `convert("RGB")` step is not modelled. Frames are taken to be RGB
  already.
- Resampling numerics are left abstract. LANCZOS, BILINEAR and the other
  filters are an abstract `Filter` that gives each output pixel's colour.
- Imaging.Resize: states only the geometry and that every pixel comes from the
  filter, not the filter's arithmetic.
- The BOX magnification is modelled by its documented block law rather than
  Pillow's code.
- Palette reduction of GIF frames is not modelled. `convert("P", palette =
  ADAPTIVE)` is a foreign quantiser, so the frames of a `Gif` are the
  unquantised magnified rasters.
- PNG and GIF encoding and file writes are not modelled. A save returns the
  `SavedFile` it would write.
- Codec.SaveAnim: the frames of a `Gif` are the frames handed to the encoder.
  Pillow's GIF writer merges consecutive identical frames into one frame with
  the summed duration, so the file can hold fewer frames than `|frames|`.
- Loader.LoadImg, Loader.LoadAnim: `resize` runs before `convert("RGB")`
  (CSEPixelArt.py:189-193), and Pillow resizes palette images, such as GIF
  frames, with NEAREST whatever filter is passed. The model applies the given
  `Filter` to every frame.
- Printed warnings are not output. They are returned as `Warning` values, in
  the order they are printed. The frame-count warning carries the count it
  prints.
- numpy's `uint8` cast of out-of-range channels is not modelled. `Encodable`
  requires channels in 0..255.
- The library's failures on ragged or empty images are not modelled.
  - `width` of an image without rows raises an error, so `Grids.Width` requires
    a row.
  - `save_anim` of an empty list raises an error, so `Codec.SaveAnim` requires
    a frame.
  - The array conversion needs a rectangular image, and the backend refuses an
    image without pixels, so `Encodable` requires a rectangular image with at
    least one row and one column. For the same reason a requested `Size` has a
    positive width and height.
- `hsv2rgb` in example-3.py (`colorsys`, `round`) is floating point. The colour
  of count n is an abstract in-range colour map.
- `load_img("cat.jpg", (16,16))` in example-4.py reads a file. `Example4.Run`
  takes the decoded file and the filter as parameters.
- The outer list of an image is never reassigned by the library or the
  examples, so it is an immutable sequence. Code that appended rows to an
  existing image is not covered.
- Example2.Run, Example3.Run, Example4.Run: state the file names, the frames,
  their number and duration and the absence of warnings, but not the 160-by-160
  size of the magnified frames, which follows from `Codec.PixartToPil`.
- bear.py is not part of this model.
