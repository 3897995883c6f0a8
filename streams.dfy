/** Row-major streams: the flat pixel sequence the imaging backend hands out
    (`getdata()`), numpy's `reshape` of such a stream into rows, and the
    concatenation of rows back into a stream. */
module Streams {

  lemma MulMono(a: int, b: int, s: int)
    requires 0 <= s && a <= b
    ensures a * s <= b * s
  {
  }

  /** A whole row `r` of width `w` lies inside a stream of h*w elements. */
  lemma RowSlice(r: int, h: int, w: nat)
    requires 0 <= r < h
    ensures 0 <= r * w && r * w + w <= h * w
  {
    MulMono(0, r, w);
    MulMono(r + 1, h, w);
  }

  /** The position of row `row`, column `col` in the row-major stream of an
      h-by-w grid. */
  function Offset(h: nat, w: nat, row: nat, col: nat): (i: nat)
    requires row < h && col < w
    ensures i < h * w
  {
    RowSlice(row, h, w);
    row * w + col
  }

  /** numpy's `reshape(h, w)` of a stream of h*w elements. */
  function Reshape<T>(data: seq<T>, h: nat, w: nat): (rows: seq<seq<T>>)
    requires |data| == h * w
    ensures |rows| == h
    ensures forall r :: 0 <= r < h ==> |rows[r]| == w
    ensures forall r: nat, c: nat :: r < h && c < w ==> rows[r][c] == data[Offset(h, w, r, c)]
  {
    seq(h, r requires 0 <= r < h => RowOf(data, h, w, r))
  }

  /** Row `r` of the reshaped stream. */
  function RowOf<T>(data: seq<T>, h: nat, w: nat, r: nat): (row: seq<T>)
    requires |data| == h * w && r < h
    ensures |row| == w
    ensures forall c: nat :: c < w ==> row[c] == data[Offset(h, w, r, c)]
  {
    RowSlice(r, h, w);
    data[r * w .. r * w + w]
  }

  /** The row-major concatenation of rows. */
  function Flatten<T>(rows: seq<seq<T>>): seq<T>
  {
    if rows == [] then [] else rows[0] + Flatten(rows[1..])
  }

  ghost predicate AllOfWidth<T>(rows: seq<seq<T>>, w: nat)
  {
    forall r :: 0 <= r < |rows| ==> |rows[r]| == w
  }

  /** Concatenating h rows of width w gives h*w elements. */
  lemma {:induction false} FlattenLength<T>(rows: seq<seq<T>>, w: nat)
    requires AllOfWidth(rows, w)
    ensures |Flatten(rows)| == |rows| * w
  {
    if rows != [] {
      FlattenLength(rows[1..], w);
    }
  }

  /** Element (r, c) of the rows sits at position Offset(r, c) of their concatenation. */
  lemma {:induction false} FlattenAt<T>(rows: seq<seq<T>>, w: nat, r: nat, c: nat)
    requires AllOfWidth(rows, w) && r < |rows| && c < w
    ensures |Flatten(rows)| == |rows| * w
    ensures Flatten(rows)[Offset(|rows|, w, r, c)] == rows[r][c]
  {
    FlattenLength(rows, w);
    var rest := rows[1..];
    assert Flatten(rows) == rows[0] + Flatten(rest);
    if r > 0 {
      FlattenAt(rest, w, r - 1, c);
      assert rest[r - 1] == rows[r];
      assert r * w == w + (r - 1) * w;
      assert Offset(|rows|, w, r, c) == w + Offset(|rest|, w, r - 1, c);
    } else {
      assert Offset(|rows|, w, r, c) == c;
    }
  }

  /** Concatenating rows of equal width and reshaping the result gives the rows back. */
  lemma ReshapeFlatten<T>(rows: seq<seq<T>>, w: nat)
    requires AllOfWidth(rows, w)
    ensures |Flatten(rows)| == |rows| * w
    ensures Reshape(Flatten(rows), |rows|, w) == rows
  {
    FlattenLength(rows, w);
    var back := Reshape(Flatten(rows), |rows|, w);
    forall r | 0 <= r < |rows| ensures back[r] == rows[r] {
      forall c | 0 <= c < w ensures back[r][c] == rows[r][c] {
        FlattenAt(rows, w, r, c);
      }
    }
  }

  /** Reshaping a stream and concatenating the rows again gives the stream back. */
  lemma FlattenReshape<T>(data: seq<T>, h: nat, w: nat)
    requires |data| == h * w
    ensures Flatten(Reshape(data, h, w)) == data
  {
    var rows := Reshape(data, h, w);
    FlattenLength(rows, w);
    forall i | 0 <= i < |data| ensures Flatten(rows)[i] == data[i] {
      OffsetSplit(i, h, w);
      FlattenAt(rows, w, i / w, i % w);
    }
  }

  lemma MulCancelLess(a: int, b: int, s: int)
    requires s > 0 && a * s < b * s
    ensures a < b
  {
  }

  /** Every position of an h-by-w stream is the offset of row i/w, column i%w. */
  lemma OffsetSplit(i: nat, h: nat, w: nat)
    requires i < h * w
    ensures w > 0 && i / w < h && i % w < w
    ensures Offset(h, w, i / w, i % w) == i
  {
    MulMono(0, h, w);
    MulCancelLess(i / w, h, w);
  }
}
