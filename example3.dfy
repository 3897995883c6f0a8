/** `example-3.py`: a 16-by-16 white image is painted pixel by pixel in
    row-major order with a hue that advances with a running count, and a copy
    of the image is appended to the animation every `skip` pixels, where `skip`
    is chosen to keep the animation within the 60-frame limit. */
module Example3 {
  import opened Pixels
  import opened Codec
  import opened Grids
  import opened Streams

  /** `math.ceil(a / b)` for positive integers. */
  function CeilDiv(a: nat, b: nat): (q: nat)
    requires b > 0
    ensures q * b >= a
    ensures q == 0 || (q - 1) * b < a
  {
    (a + b - 1) / b
  }

  /** The number of pixels, the frame budget and the resulting step between
      snapshots: ceil(256 / 59) = 5. */
  const Total: nat := 16 * 16
  const MaxFrames: nat := 60

  lemma SkipIsFive()
    ensures CeilDiv(Total, MaxFrames - 1) == 5
  {
  }

  /** Why `skip` is ceil(total / (max_frames - 1)): one snapshot every `skip`
      pixels, plus the initial frame, stays within the frame budget. */
  lemma FrameBudget(total: nat, maxFrames: nat)
    requires total > 0 && maxFrames >= 2
    ensures CeilDiv(total, maxFrames - 1) > 0
    ensures 1 + total / CeilDiv(total, maxFrames - 1) <= maxFrames
  {
    var q := CeilDiv(total, maxFrames - 1);
    var d := total / q;
    assert d * q <= total;
    assert maxFrames * q == (maxFrames - 1) * q + q;
    MulCancelLess(d, maxFrames, q);
  }

  /** A colour map with in-range channels, standing for `hsv2rgb(n / total, 1, 1)`
      of the running count n. */
  ghost predicate ColorMap(color: int -> Pixel)
  {
    forall n :: InByteRange(color(n))
  }

  /** The picture after the first n pixels in row-major order have been painted:
      pixel i (counted from 0) gets the colour of count i + 1. */
  function Painted(n: int, color: int -> Pixel): (img: Image)
    ensures |img| == 16 && forall r :: 0 <= r < 16 ==> |img[r]| == 16
  {
    seq(16, r requires 0 <= r < 16 => seq(16, c requires 0 <= c < 16 =>
      if 16 * r + c < n then color(16 * r + c + 1) else White))
  }

  /** The live image holds the picture with its first n pixels painted. */
  ghost predicate Shows(g: Grid, n: int, color: int -> Pixel)
    reads g
  {
    && |g| == 16
    && (forall r :: 0 <= r < 16 ==> g[r].Length == 16)
    && (forall r, c :: 0 <= r < 16 && 0 <= c < 16 ==>
          g[r][c] == if 16 * r + c < n then color(16 * r + c + 1) else White)
  }

  lemma ShowsPainted(g: Grid, n: int, color: int -> Pixel)
    requires Shows(g, n, color)
    ensures Value(g) == Painted(n, color)
  {
    forall r | 0 <= r < 16 ensures Value(g)[r] == Painted(n, color)[r] {
    }
  }

  /** A picture painted with a colour map can be saved. */
  lemma PaintedEncodable(n: int, color: int -> Pixel)
    requires ColorMap(color)
    ensures Encodable(Painted(n, color))
  {
  }

  /** Painting one more pixel changes exactly pixel n of the picture. */
  lemma PaintedStep(n: nat, color: int -> Pixel)
    requires n < 256
    ensures Painted(n + 1, color) == Painted(n, color)[n / 16 := Painted(n, color)[n / 16][n % 16 := color(n + 1)]]
  {
    var r0, c0 := n / 16, n % 16;
    assert n == 16 * r0 + c0;
    var next := Painted(n, color)[r0 := Painted(n, color)[r0][c0 := color(n + 1)]];
    forall r | 0 <= r < 16 ensures Painted(n + 1, color)[r] == next[r] {
      forall c | 0 <= c < 16 ensures Painted(n + 1, color)[r][c] == next[r][c] {
        if r == r0 && c == c0 {
        } else {
          assert 16 * r + c != n;
        }
      }
    }
  }

  /** The body of the inner loop of `main()`: count pixel (row, col), paint it
      with the colour of the count and, when the count is a multiple of `skip`,
      append a copy of the image to the animation. */
  method Step(frame: Grid, anim: seq<Grid>, row: nat, col: nat, count: int, skip: int, color: int -> Pixel)
    returns (anim': seq<Grid>, count': int)
    requires skip == 5 && row < 16 && col < 16 && count == 16 * row + col
    requires Shows(frame, count, color) && DistinctRows(frame)
    requires |anim| == 1 + count / skip
    requires anim[0] == frame || (Shows(anim[0], 0, color) && Disjoint(anim[0], frame))
    requires forall j :: 1 <= j < |anim| ==> Shows(anim[j], skip * j, color) && Disjoint(anim[j], frame)
    modifies frame[row]
    ensures count' == count + 1
    ensures Shows(frame, count', color)
    ensures |anim'| == 1 + count' / skip && anim'[0] == anim[0]
    ensures anim'[0] == frame || (Shows(anim'[0], 0, color) && Disjoint(anim'[0], frame))
    ensures forall j :: 1 <= j < |anim'| ==> Shows(anim'[j], skip * j, color) && Disjoint(anim'[j], frame)
  {
    count' := count + 1;
    frame[row][col] := color(count');
    assert Shows(frame, count', color);
    assert forall j :: 1 <= j < |anim| ==> Shows(anim[j], skip * j, color);
    assert anim[0] == frame || Shows(anim[0], 0, color);
    anim' := anim;
    if count' % skip == 0 {
      var copy := CopyImg(frame);
      assert Shows(copy, count', color);
      anim' := anim + [copy];
    }
  }

  /** The inner loop of `main()` over one row. */
  method PaintRow(frame: Grid, anim: seq<Grid>, row: nat, count: int, skip: int, color: int -> Pixel)
    returns (anim': seq<Grid>, count': int)
    requires skip == 5 && row < 16 && count == 16 * row
    requires Shows(frame, count, color) && DistinctRows(frame)
    requires |anim| == 1 + count / skip
    requires anim[0] == frame || (Shows(anim[0], 0, color) && Disjoint(anim[0], frame))
    requires forall j :: 1 <= j < |anim| ==> Shows(anim[j], skip * j, color) && Disjoint(anim[j], frame)
    modifies frame[row]
    ensures count' == count + 16
    ensures Shows(frame, count', color)
    ensures |anim'| == 1 + count' / skip && anim'[0] == anim[0]
    ensures anim'[0] == frame || (Shows(anim'[0], 0, color) && Disjoint(anim'[0], frame))
    ensures forall j :: 1 <= j < |anim'| ==> Shows(anim'[j], skip * j, color) && Disjoint(anim'[j], frame)
  {
    anim', count' := anim, count;
    for col := 0 to 16
      invariant count' == 16 * row + col
      invariant Shows(frame, count', color)
      invariant |anim'| == 1 + count' / skip && anim'[0] == anim[0]
      invariant anim'[0] == frame || (Shows(anim'[0], 0, color) && Disjoint(anim'[0], frame))
      invariant forall j :: 1 <= j < |anim'| ==> Shows(anim'[j], skip * j, color) && Disjoint(anim'[j], frame)
    {
      anim', count' := Step(frame, anim', row, col, count', skip, color);
    }
  }

  /** The loops of `main()`. The first element of the animation is the live
      image itself, so it ends up showing the finished picture. */
  method Animate(color: int -> Pixel) returns (frame: Grid, anim: seq<Grid>)
    ensures |anim| == 52 && anim[0] == frame
    ensures Shows(frame, Total, color)
    ensures forall j :: 1 <= j < 52 ==> Shows(anim[j], 5 * j, color)
  {
    var skip := CeilDiv(Total, MaxFrames - 1);
    SkipIsFive();
    frame := CreateImg(16, 16, White);
    anim := [frame];
    var count := 0;
    for row := 0 to 16
      invariant count == 16 * row
      invariant Shows(frame, count, color) && DistinctRows(frame)
      invariant |anim| == 1 + count / skip && anim[0] == frame
      invariant forall j :: 1 <= j < |anim| ==> Shows(anim[j], skip * j, color) && Disjoint(anim[j], frame)
    {
      anim, count := PaintRow(frame, anim, row, count, skip, color);
    }
  }

  /** As written, the first frame is the live image, so it shows the finished
      picture instead of the blank one: whenever the first colour is not white,
      the animation opens on something other than a white image. */
  lemma FirstFrameNotBlank(frame: Grid, anim: seq<Grid>, color: int -> Pixel)
    requires |anim| == 52 && anim[0] == frame && Shows(frame, Total, color)
    requires color(1) != White
    ensures Value(anim[0]) != Painted(0, color)
  {
    assert Value(anim[0])[0][0] == color(1);
    assert Painted(0, color)[0][0] == White;
  }

  /** The loops of `main()` with the possibly intended first frame: a copy of
      the blank image, `anim = [copy_img(frame)]`. Frame j then shows the first
      5 * j pixels painted, for every j, and no frame is the live image. */
  method AnimateFromBlank(color: int -> Pixel) returns (frame: Grid, anim: seq<Grid>)
    ensures |anim| == 52
    ensures Shows(frame, Total, color)
    ensures forall j :: 0 <= j < 52 ==> Shows(anim[j], 5 * j, color) && Disjoint(anim[j], frame)
  {
    var skip := CeilDiv(Total, MaxFrames - 1);
    SkipIsFive();
    frame := CreateImg(16, 16, White);
    var blank := CopyImg(frame);
    anim := [blank];
    var count := 0;
    for row := 0 to 16
      invariant count == 16 * row
      invariant Shows(frame, count, color) && DistinctRows(frame)
      invariant |anim| == 1 + count / skip && anim[0] == blank
      invariant Shows(blank, 0, color) && Disjoint(blank, frame)
      invariant forall j :: 1 <= j < |anim| ==> Shows(anim[j], skip * j, color) && Disjoint(anim[j], frame)
    {
      anim, count := PaintRow(frame, anim, row, count, skip, color);
    }
  }

  /** With the intended first frame the animation opens on the blank image and
      every frame differs from the next by the 5 pixels painted in between. */
  lemma BlankFirstFrame(frame: Grid, anim: seq<Grid>, color: int -> Pixel)
    requires |anim| == 52 && forall j :: 0 <= j < 52 ==> Shows(anim[j], 5 * j, color)
    ensures Value(anim[0]) == Painted(0, color)
    ensures forall r, c :: 0 <= r < 16 && 0 <= c < 16 ==> Value(anim[0])[r][c] == White
    ensures forall j :: 0 <= j < 52 ==> Value(anim[j]) == Painted(5 * j, color)
  {
    forall j | 0 <= j < 52 ensures Value(anim[j]) == Painted(5 * j, color) {
      ShowsPainted(anim[j], 5 * j, color);
    }
  }

  lemma ShowFrames(frame: Grid, anim: seq<Grid>, color: int -> Pixel)
    requires |anim| == 52 && Shows(frame, Total, color)
    requires forall j :: 1 <= j < 52 ==> Shows(anim[j], 5 * j, color)
    ensures Value(frame) == Painted(Total, color)
    ensures forall j :: 1 <= j < 52 ==> Value(anim[j]) == Painted(5 * j, color)
  {
    ShowsPainted(frame, Total, color);
    forall j | 1 <= j < 52 ensures Value(anim[j]) == Painted(5 * j, color) {
      ShowsPainted(anim[j], 5 * j, color);
    }
  }

  /** Every frame of the animation can be saved. */
  lemma FramesEncodable(imgs: seq<Image>, color: int -> Pixel)
    requires ColorMap(color) && |imgs| == 52
    requires imgs[0] == Painted(Total, color)
    requires forall j :: 1 <= j < 52 ==> imgs[j] == Painted(5 * j, color)
    ensures |imgs[0]| == 16 && |imgs[0][0]| == 16
    ensures forall j :: 0 <= j < 52 ==> Encodable(imgs[j])
  {
    forall j | 0 <= j < 52 ensures Encodable(imgs[j]) {
      PaintedEncodable(if j == 0 then Total else 5 * j, color);
    }
  }

  /** `main()` of example-3.py, with `hsv2rgb(count / total, 1, 1)` given as the
      colour map. The animation has 52 frames, within the limit of 60: frame j
      >= 1 shows the first 5 * j pixels painted, and frame 0, being the live
      image, shows all 256. Both saves are free of warnings. */
  method Run(color: int -> Pixel) returns (frame: Grid, anim: seq<Grid>, small: SaveResult, big: SaveResult)
    requires ColorMap(color)
    ensures |anim| == 52 && anim[0] == frame
    ensures Value(frame) == Painted(Total, color)
    ensures forall j :: 1 <= j < 52 ==> Value(anim[j]) == Painted(5 * j, color)
    ensures small.warnings == [] && big.warnings == []
    ensures small.file.Gif? && |small.file.frames| == 52 && small.file.duration == 100
    ensures big.file.Gif? && |big.file.frames| == 52 && big.file.duration == 100
    ensures small.file.filename == "example-3.gif" && big.file.filename == "example-3-big.gif"
    ensures small.file.frames[0] == PixartToPil(Painted(Total, color), 1)
    ensures big.file.frames[0] == PixartToPil(Painted(Total, color), 10)
    ensures forall j :: 1 <= j < 52 ==>
      small.file.frames[j] == PixartToPil(Painted(5 * j, color), 1) &&
      big.file.frames[j] == PixartToPil(Painted(5 * j, color), 10)
  {
    frame, anim := Animate(color);
    ShowFrames(frame, anim, color);
    FramesEncodable(Values(anim), color);
    small := SaveAnim(Values(anim), "example-3.gif", 1, 100);
    big := SaveAnim(Values(anim), "example-3-big.gif", 10, 100);
  }
}
