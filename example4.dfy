/** `example-4.py`: a picture file is loaded and resized to 16 by 16, a copy
    gets four neon-green "laser eye" pixels, and the two images are saved as a
    two-frame animation with 300 ms frames at scale 1 and 10. */
module Example4 {
  import opened Pixels
  import opened Imaging
  import opened Codec
  import opened Grids
  import opened Loader

  /** The four pixels the example paints, as (row, column). */
  predicate IsEye(r: int, c: int)
  {
    (r == 8 && (c == 5 || c == 6)) || (r == 7 && (c == 10 || c == 11))
  }

  /** The laser-eyed version of an image: the eye pixels neon green, every
      other pixel as in the image. */
  function LaserEyes(img: Image): (out: Image)
    requires |img| == 16 && forall r :: 0 <= r < 16 ==> |img[r]| == 16
    ensures |out| == 16 && forall r :: 0 <= r < 16 ==> |out[r]| == 16
    ensures forall r, c :: 0 <= r < 16 && 0 <= c < 16 && IsEye(r, c) ==> out[r][c] == NeonGreen
    ensures forall r, c :: 0 <= r < 16 && 0 <= c < 16 && !IsEye(r, c) ==> out[r][c] == img[r][c]
  {
    seq(16, r requires 0 <= r < 16 => seq(16, c requires 0 <= c < 16 =>
      if IsEye(r, c) then NeonGreen else img[r][c]))
  }

  /** Painting the eyes keeps an image saveable. */
  lemma LaserEyesEncodable(img: Image)
    requires |img| == 16 && forall r :: 0 <= r < 16 ==> |img[r]| == 16
    requires AllInByteRange(img)
    ensures Encodable(LaserEyes(img))
  {
  }

  /** `copy_img` followed by the four pixel assignments of `main()`: the copy
      has laser eyes, and the image it was copied from is untouched. */
  method AddLaserEyes(img: Grid) returns (copy: Grid)
    requires |img| == 16 && forall r :: 0 <= r < 16 ==> img[r].Length == 16
    ensures Value(copy) == LaserEyes(Value(img))
    ensures Value(img) == old(Value(img))
    ensures Disjoint(img, copy)
  {
    copy := CopyImg(img);
    copy[8][5] := NeonGreen;
    copy[8][6] := NeonGreen;
    copy[7][10] := NeonGreen;
    copy[7][11] := NeonGreen;
    forall r | 0 <= r < 16 ensures Value(copy)[r] == LaserEyes(Value(img))[r] {
    }
  }

  /** `main()` of example-4.py, with `load_img("cat.jpg", (16,16))` reading the
      given file through the given filter (LANCZOS in the source). */
  method Run(file: ImageFile, filter: Filter) returns (anim: seq<Grid>, small: SaveResult, big: SaveResult)
    requires |file.frames| > 0
    ensures |anim| == 2 && Disjoint(anim[0], anim[1])
    ensures Value(anim[0]) == PilToPixart(file.frames[0], Some(Size(16, 16)), filter)
    ensures Value(anim[1]) == LaserEyes(Value(anim[0]))
    ensures small.warnings == [] && big.warnings == []
    ensures small.file.Gif? && |small.file.frames| == 2 && small.file.duration == 300
    ensures big.file.Gif? && |big.file.frames| == 2 && big.file.duration == 300
    ensures small.file.filename == "example-4.gif" && big.file.filename == "example-4-big.gif"
    ensures forall k :: 0 <= k < 2 ==>
      small.file.frames[k] == PixartToPil(Value(anim[k]), 1) && big.file.frames[k] == PixartToPil(Value(anim[k]), 10)
  {
    var cat := LoadImg(file, Some(Size(16, 16)), filter);
    var catLaserEyes := AddLaserEyes(cat);
    anim := [cat, catLaserEyes];
    var imgs := Values(anim);
    LaserEyesEncodable(Value(cat));
    assert imgs == [Value(cat), LaserEyes(Value(cat))];
    SaveAnimSilent(imgs, "example-4.gif", 1, 300);
    SaveAnimSilent(imgs, "example-4-big.gif", 10, 300);
    small := SaveAnim(imgs, "example-4.gif", 1, 300);
    big := SaveAnim(imgs, "example-4-big.gif", 10, 300);
  }
}
