/** The decoder adapter: `load_img` and `load_anim`. Opening and decoding the
    file is the imaging backend's work; what it yields is an `ImageFile`. */
module Loader {
  import opened Pixels
  import opened Imaging
  import opened Codec
  import opened Grids

  /** What `Image.open(filename)` gives access to: whether the format reports an
      animation (`is_animated`, False when the format has no such attribute) and
      the frames `seek` reaches, already in RGB. The first frame is the one the
      file is positioned at when opened. */
  datatype ImageFile = ImageFile(isAnimated: bool, frames: seq<ValidRaster>)

  /** `load_img(filename, size, resample_filter)`: the frame the file is
      positioned at, converted; for an animation that is the first frame. */
  method LoadImg(file: ImageFile, size: Option<Size>, filter: Filter) returns (img: Grid)
    requires |file.frames| > 0
    ensures Value(img) == PilToPixart(file.frames[0], size, filter)
    ensures forall r :: 0 <= r < |img| ==> fresh(img[r])
    ensures DistinctRows(img)
  {
    img := NewGrid(PilToPixart(file.frames[0], size, filter));
  }

  /** `load_anim(filename, size, resample_filter)`: one converted image per
      frame, in frame order (the seek-and-convert loop), when the file is
      animated, and otherwise a list holding the single converted image. Every
      image has its own row lists. */
  method LoadAnim(file: ImageFile, size: Option<Size>, filter: Filter) returns (result: seq<Grid>)
    requires |file.frames| > 0
    ensures |result| == if file.isAnimated then |file.frames| else 1
    ensures forall k :: 0 <= k < |result| ==> Value(result[k]) == PilToPixart(file.frames[k], size, filter)
    ensures forall k, r :: 0 <= k < |result| && 0 <= r < |result[k]| ==> fresh(result[k][r])
    ensures forall k :: 0 <= k < |result| ==> DistinctRows(result[k])
    ensures forall k, l :: 0 <= k < l < |result| ==> Disjoint(result[k], result[l])
  {
    if file.isAnimated {
      result := NewGrids(seq(|file.frames|, k requires 0 <= k < |file.frames| => PilToPixart(file.frames[k], size, filter)));
    } else {
      var only := NewGrid(PilToPixart(file.frames[0], size, filter));
      result := [only];
    }
  }
}
