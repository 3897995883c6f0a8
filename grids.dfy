/** Live images: what `create_img`, `copy_img` and the decoder return and what
    user code mutates with `img[row][col] = pixel`. Each row is a mutable list
    (an array with its own identity); the outer list of an image is never
    changed once built, so it is a sequence of row references. Two images share
    state exactly when they share a row. */
module Grids {
  import opened Pixels

  type Grid = seq<array<Pixel>>

  /** The pixels a live image holds right now. */
  function Value(g: Grid): (img: Image)
    reads g
    ensures |img| == |g|
    ensures forall r :: 0 <= r < |g| ==> img[r] == g[r][..]
  {
    seq(|g|, r requires 0 <= r < |g| reads g => g[r][..])
  }

  /** Every row list of every image in the list. */
  ghost function RowsOf(frames: seq<Grid>): set<array<Pixel>>
  {
    set k, r | 0 <= k < |frames| && 0 <= r < |frames[k]| :: frames[k][r]
  }

  /** The pixels each image of a list holds right now. */
  function Values(frames: seq<Grid>): (imgs: seq<Image>)
    reads RowsOf(frames)
    ensures |imgs| == |frames|
    ensures forall k :: 0 <= k < |frames| ==> imgs[k] == Value(frames[k])
  {
    seq(|frames|, k requires 0 <= k < |frames| reads RowsOf(frames) => Value(frames[k]))
  }

  /** No row list appears twice in the image, so an assignment to one row
      leaves every other row alone. */
  ghost predicate DistinctRows(g: Grid)
  {
    forall i, j :: 0 <= i < j < |g| ==> g[i] != g[j]
  }

  /** The two images share no row list, so mutating one never changes the other. */
  ghost predicate Disjoint(g: Grid, h: Grid)
  {
    forall i, j :: 0 <= i < |g| && 0 <= j < |h| ==> g[i] != h[j]
  }

  /** Every row has the length of row 0. */
  ghost predicate RectangularGrid(g: Grid)
  {
    forall r :: 0 <= r < |g| ==> g[r].Length == g[0].Length
  }

  /** `create_img(height, width, color)`: the list `[None] * height` is filled
      slot by slot with fresh rows `[color] * width`; a negative count gives an
      empty list, as Python's list repetition does. */
  method CreateImg(height: int, width: int, color: Pixel) returns (g: Grid)
    ensures |g| == (if height < 0 then 0 else height)
    ensures forall r :: 0 <= r < |g| ==> fresh(g[r]) && g[r].Length == (if width < 0 then 0 else width)
    ensures forall r, c :: 0 <= r < |g| && 0 <= c < g[r].Length ==> g[r][c] == color
    ensures DistinctRows(g)
  {
    var n := if height < 0 then 0 else height;
    var m := if width < 0 then 0 else width;
    var slots: seq<array?<Pixel>> := seq(n, _ => null);
    for i := 0 to n
      invariant |slots| == n
      invariant forall k :: 0 <= k < i ==> slots[k] != null && fresh(slots[k]) && slots[k].Length == m
      invariant forall k, c :: 0 <= k < i && 0 <= c < m ==> slots[k] != null && slots[k].Length == m && slots[k][c] == color
      invariant forall k, l :: 0 <= k < l < i ==> slots[k] != slots[l]
    {
      var row := new Pixel[m](_ => color);
      slots := slots[i := row];
    }
    g := seq(n, k requires 0 <= k < n => slots[k] as array<Pixel>);
  }

  /** A list comprehension over the rows of an image value,
      `[[pix for pix in row] for row in rows]`: every row becomes a new list. */
  method NewGrid(rows: Image) returns (g: Grid)
    ensures Value(g) == rows
    ensures forall r :: 0 <= r < |g| ==> fresh(g[r])
    ensures DistinctRows(g)
  {
    g := [];
    for r := 0 to |rows|
      invariant |g| == r
      invariant forall k :: 0 <= k < r ==> fresh(g[k]) && g[k][..] == rows[k]
      invariant DistinctRows(g)
    {
      var source := rows[r];
      var row := new Pixel[|source|](i requires 0 <= i < |source| => source[i]);
      g := g + [row];
    }
  }

  /** One new image per value, in order, as a loop that appends
      `[[pix for pix in row] for row in rows]` for each value: every image has
      its own row lists, shared with no other image. */
  method NewGrids(imgs: seq<Image>) returns (result: seq<Grid>)
    ensures |result| == |imgs|
    ensures forall k :: 0 <= k < |imgs| ==> Value(result[k]) == imgs[k]
    ensures forall k, r :: 0 <= k < |result| && 0 <= r < |result[k]| ==> fresh(result[k][r])
    ensures forall k :: 0 <= k < |result| ==> DistinctRows(result[k])
    ensures forall k, l :: 0 <= k < l < |result| ==> Disjoint(result[k], result[l])
  {
    result := [];
    for i := 0 to |imgs|
      invariant |result| == i
      invariant forall k :: 0 <= k < i ==> Value(result[k]) == imgs[k]
      invariant forall k, r :: 0 <= k < i && 0 <= r < |result[k]| ==> fresh(result[k][r])
      invariant forall k :: 0 <= k < i ==> DistinctRows(result[k])
      invariant forall k, l :: 0 <= k < l < i ==> Disjoint(result[k], result[l])
    {
      var g := NewGrid(imgs[i]);
      result := result + [g];
    }
  }

  /** `copy_img(img)`: a pixel-equal image built from new row lists, so that
      mutating the copy never changes the original and vice versa. */
  method CopyImg(img: Grid) returns (copy: Grid)
    ensures Value(copy) == Value(img)
    ensures |copy| == |img| && forall r :: 0 <= r < |img| ==> copy[r].Length == img[r].Length
    ensures forall r, c :: 0 <= r < |img| && 0 <= c < img[r].Length ==> copy[r][c] == img[r][c]
    ensures forall r :: 0 <= r < |copy| ==> fresh(copy[r])
    ensures DistinctRows(copy) && Disjoint(copy, img)
  {
    copy := NewGrid(Value(img));
    forall r | 0 <= r < |img| ensures copy[r][..] == img[r][..] {
      assert Value(copy)[r] == Value(img)[r];
    }
  }

  /** `height(img)`: the number of rows. */
  function Height(img: Grid): (n: nat)
    reads img
    ensures n == |Value(img)|
  {
    |img|
  }

  /** `width(img)`: the length of row 0, which is the width of every row when
      the image is rectangular; an image without rows has no width. */
  function Width(img: Grid): (n: nat)
    requires |img| > 0
    reads img
    ensures n == |Value(img)[0]|
    ensures RectangularGrid(img) ==> forall r :: 0 <= r < |img| ==> |Value(img)[r]| == n
  {
    img[0].Length
  }
}
