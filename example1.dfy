/** `example-1.py`: a 16-by-16 white image in which every third pixel, counted
    in row-major order from 1, is painted black; saved at scale 1 and 10. */
module Example1 {
  import opened Pixels
  import opened Streams
  import opened Codec
  import opened Grids

  /** The colour of the cell at row-major position i once the loop has passed
      it: black when the running count i + 1 is a multiple of 3. */
  function Pattern(i: int): Pixel
  {
    if (i + 1) % 3 == 0 then Black else White
  }

  /** The final image, as the row-major stream of 256 cells reshaped to 16 by 16. */
  function Final(): (img: Image)
    ensures |img| == 16 && forall r :: 0 <= r < 16 ==> |img[r]| == 16
  {
    Reshape(seq(256, i => Pattern(i)), 16, 16)
  }

  /** How many elements of s equal p. */
  function Count(s: seq<Pixel>, p: Pixel): nat
  {
    if s == [] then 0 else (if s[0] == p then 1 else 0) + Count(s[1..], p)
  }

  /** How many pixels of the image equal p. */
  function CountIn(img: Image, p: Pixel): nat
  {
    if img == [] then 0 else Count(img[0], p) + CountIn(img[1..], p)
  }

  lemma {:induction false} CountAppend(a: seq<Pixel>, b: seq<Pixel>, p: Pixel)
    ensures Count(a + b, p) == Count(a, p) + Count(b, p)
  {
    if a != [] {
      assert (a + b)[0] == a[0];
      assert (a + b)[1..] == a[1..] + b;
      CountAppend(a[1..], b, p);
    } else {
      assert a + b == b;
    }
  }

  /** Counting pixel by pixel over the rows is counting over their concatenation. */
  lemma {:induction false} CountInFlatten(img: Image, p: Pixel)
    ensures CountIn(img, p) == Count(Flatten(img), p)
  {
    if img != [] {
      CountInFlatten(img[1..], p);
      CountAppend(img[0], Flatten(img[1..]), p);
    }
  }

  /** Among the first n cells, exactly n / 3 are black. */
  lemma {:induction false} PatternCount(n: nat)
    ensures Count(seq(n, i => Pattern(i)), Black) == n / 3
  {
    if n > 0 {
      PatternCount(n - 1);
      assert seq(n, i => Pattern(i)) == seq(n - 1, i => Pattern(i)) + [Pattern(n - 1)];
      CountAppend(seq(n - 1, i => Pattern(i)), [Pattern(n - 1)], Black);
    }
  }

  /** The final image has 256 / 3 = 85 black pixels. */
  lemma BlackPixels()
    ensures CountIn(Final(), Black) == 85
  {
    var data := seq(256, i => Pattern(i));
    CountInFlatten(Final(), Black);
    FlattenReshape(data, 16, 16);
    PatternCount(256);
  }

  /** Pixel (r, c) of the final image is black exactly when 16*r + c + 1 is a
      multiple of 3, and white otherwise. */
  lemma FinalAt(r: nat, c: nat)
    requires r < 16 && c < 16
    ensures Final()[r][c] == Pattern(16 * r + c)
    ensures Final()[r][c] == Black <==> (16 * r + c + 1) % 3 == 0
    ensures Final()[r][c] != Black ==> Final()[r][c] == White
  {
    assert Offset(16, 16, r, c) == 16 * r + c;
  }

  /** Any 16-by-16 image laid out by the pattern is the final image. */
  lemma IsFinal(img: Image)
    requires |img| == 16 && forall r :: 0 <= r < 16 ==> |img[r]| == 16
    requires forall r, c :: 0 <= r < 16 && 0 <= c < 16 ==> img[r][c] == Pattern(16 * r + c)
    ensures img == Final()
  {
    forall r | 0 <= r < 16 ensures img[r] == Final()[r] {
      forall c | 0 <= c < 16 ensures img[r][c] == Final()[r][c] {
        FinalAt(r, c);
      }
    }
  }

  /** The final image can be saved: a non-empty rectangle of in-range pixels. */
  lemma FinalEncodable()
    ensures Encodable(Final())
  {
    forall r, c | 0 <= r < 16 && 0 <= c < 16 ensures InByteRange(Final()[r][c]) {
      FinalAt(r, c);
    }
  }

  /** The inner loop of `main()` over one row: the running count goes on from
      the 16 * row pixels already visited, and each pixel at which it reaches a
      multiple of 3 is painted black. */
  method PaintRow(line: array<Pixel>, row: nat, count: int) returns (count': int)
    requires line.Length == 16 && count == 16 * row
    requires forall c :: 0 <= c < 16 ==> line[c] == White
    modifies line
    ensures count' == count + 16
    ensures forall c :: 0 <= c < 16 ==> line[c] == Pattern(16 * row + c)
  {
    count' := count;
    for col := 0 to line.Length
      invariant count' == 16 * row + col
      invariant forall c :: 0 <= c < 16 ==> line[c] == if c < col then Pattern(16 * row + c) else White
    {
      count' := count' + 1;
      if count' % 3 == 0 {
        line[col] := Black;
      }
    }
  }

  /** The loop of `main()`: a running count over the pixels in row-major
      order, painting black each pixel at which the count is a multiple of 3. */
  method Paint() returns (img: Grid)
    ensures |img| == 16 && forall r :: 0 <= r < 16 ==> img[r].Length == 16
    ensures forall r, c :: 0 <= r < 16 && 0 <= c < 16 ==>
      img[r][c] == if (16 * r + c + 1) % 3 == 0 then Black else White
    ensures Value(img) == Final()
  {
    img := CreateImg(16, 16, White);
    var count := 0;
    for row := 0 to Height(img)
      invariant |img| == 16 && forall r :: 0 <= r < 16 ==> img[r].Length == 16
      invariant DistinctRows(img)
      invariant count == 16 * row
      invariant forall r, c :: 0 <= r < 16 && 0 <= c < 16 ==>
        img[r][c] == if r < row then Pattern(16 * r + c) else White
    {
      count := PaintRow(img[row], row, count);
    }
    IsFinal(Value(img));
  }

  /** `main()` of example-1.py: the image holds 85 black pixels and is saved
      as a 16-by-16 and a 160-by-160 PNG, with no size warning either time. */
  method Run() returns (img: Grid, small: SaveResult, big: SaveResult)
    ensures Value(img) == Final()
    ensures CountIn(Value(img), Black) == 85
    ensures small.warnings == [] && big.warnings == []
    ensures small.file.Png? && small.file.image.height == 16 && small.file.image.width == 16
    ensures big.file.Png? && big.file.image.height == 160 && big.file.image.width == 160
    ensures small.file.filename == "example-1.png" && small.file.image == PixartToPil(Final(), 1)
    ensures big.file.filename == "example-1-big.png" && big.file.image == PixartToPil(Final(), 10)
  {
    img := Paint();
    BlackPixels();
    FinalEncodable();
    small := SaveImg(Value(img), "example-1.png", 1);
    big := SaveImg(Value(img), "example-1-big.png", 10);
  }
}
