/** `example-2.py`: a 17-frame animation in which a red band grows down a
    16-by-16 white image one row per frame; saved at scale 1 and 10. */
module Example2 {
  import opened Pixels
  import opened Codec
  import opened Grids

  /** Frame k of the animation: its first k rows are red, the rest white. */
  function Frame(k: nat): (img: Image)
    ensures |img| == 16 && forall r :: 0 <= r < 16 ==> |img[r]| == 16
  {
    seq(16, r => seq(16, c => if r < k then Red else White))
  }

  /** Each frame is the previous one with row k-1 painted red; nothing else changes. */
  lemma FrameStep(k: nat)
    requires 1 <= k <= 16
    ensures Frame(k) == Frame(k - 1)[k - 1 := seq(16, _ => Red)]
    ensures forall r :: 0 <= r < 16 && r != k - 1 ==> Frame(k)[r] == Frame(k - 1)[r]
    ensures Frame(k)[k - 1] != Frame(k - 1)[k - 1]
  {
    assert Frame(k)[k - 1][0] == Red;
    assert Frame(k - 1)[k - 1][0] == White;
  }

  /** The first frame is all white and the last all red. */
  lemma FirstAndLast()
    ensures forall r, c :: 0 <= r < 16 && 0 <= c < 16 ==> Frame(0)[r][c] == White && Frame(16)[r][c] == Red
  {
  }

  /** A 16-by-16 image whose first k rows are red and the rest white is frame k. */
  lemma IsFrame(img: Image, k: nat)
    requires |img| == 16 && forall r :: 0 <= r < 16 ==> |img[r]| == 16
    requires forall r, c :: 0 <= r < 16 && 0 <= c < 16 ==> img[r][c] == if r < k then Red else White
    ensures img == Frame(k)
  {
    forall r | 0 <= r < 16 ensures img[r] == Frame(k)[r] {
    }
  }

  /** Every frame can be saved: it is a non-empty rectangle of in-range pixels. */
  lemma FramesEncodable(imgs: seq<Image>)
    requires |imgs| == 17 && forall k :: 0 <= k < 17 ==> imgs[k] == Frame(k)
    ensures |imgs[0]| == 16 && |imgs[0][0]| == 16
    ensures forall k :: 0 <= k < 17 ==> Encodable(imgs[k])
  {
    forall k | 0 <= k < 17 ensures Encodable(imgs[k]) {
      assert Rectangular(Frame(k));
    }
  }

  /** The live image currently shows frame k. */
  ghost predicate Shows(g: Grid, k: nat)
    reads g
  {
    && |g| == 16
    && (forall r :: 0 <= r < 16 ==> g[r].Length == 16)
    && (forall r, c :: 0 <= r < 16 && 0 <= c < 16 ==> g[r][c] == if r < k then Red else White)
  }

  lemma ShowFrames(anim: seq<Grid>)
    requires forall k :: 0 <= k < |anim| ==> Shows(anim[k], k)
    ensures forall k :: 0 <= k < |anim| ==> Value(anim[k]) == Frame(k)
  {
    forall k | 0 <= k < |anim| ensures Value(anim[k]) == Frame(k) {
      IsFrame(Value(anim[k]), k);
    }
  }

  /** The inner loop of `main()`: every pixel of one row list becomes `color`. */
  method FillRow(line: array<Pixel>, color: Pixel)
    modifies line
    ensures forall c :: 0 <= c < line.Length ==> line[c] == color
  {
    for col := 0 to line.Length
      invariant forall c :: 0 <= c < col ==> line[c] == color
    {
      line[col] := color;
    }
  }

  /** The loop of `main()`: start from a white image and append, for each row,
      a copy of the last frame with that row painted red. */
  method Animate() returns (anim: seq<Grid>)
    ensures |anim| == 17
    ensures forall k :: 0 <= k < 17 ==> Shows(anim[k], k) && DistinctRows(anim[k])
  {
    var first := CreateImg(16, 16, White);
    anim := [first];
    for row := 0 to 16
      invariant |anim| == row + 1
      invariant forall k :: 0 <= k <= row ==> Shows(anim[k], k)
      invariant forall k :: 0 <= k <= row ==> DistinctRows(anim[k])
    {
      var next := CopyImg(anim[|anim| - 1]);
      assert forall k :: 0 <= k <= row ==> Disjoint(anim[k], next);
      FillRow(next[row], Red);
      assert Shows(next, row + 1);
      anim := anim + [next];
    }
  }

  /** `main()` of example-2.py: the animation, saved at scale 1 and at scale 10
      with the default frame duration of 100 ms, with no warning either time. */
  method Run() returns (anim: seq<Grid>, small: SaveResult, big: SaveResult)
    ensures |anim| == 17
    ensures forall k :: 0 <= k < 17 ==> Value(anim[k]) == Frame(k)
    ensures small.warnings == [] && big.warnings == []
    ensures small.file.Gif? && |small.file.frames| == 17 && small.file.duration == 100
    ensures big.file.Gif? && |big.file.frames| == 17 && big.file.duration == 100
    ensures small.file.filename == "example-2.gif" && big.file.filename == "example-2-big.gif"
    ensures forall k :: 0 <= k < 17 ==>
      small.file.frames[k] == PixartToPil(Frame(k), 1) && big.file.frames[k] == PixartToPil(Frame(k), 10)
  {
    anim := Animate();
    ShowFrames(anim);
    FramesEncodable(Values(anim));
    small := SaveAnim(Values(anim), "example-2.gif", 1, 100);
    big := SaveAnim(Values(anim), "example-2-big.gif", 10, 100);
  }
}
