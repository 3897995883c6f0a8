/** The pixel and image values of the library: a pixel is a triple of integers
    (red, green, blue), an image is a list of rows of pixels. */
module Pixels {

  /** A pixel as the library's users write it: three unbounded integers. The
      library never checks that they lie in 0..255. */
  datatype Pixel = Pixel(red: int, green: int, blue: int)

  const White := Pixel(255, 255, 255)
  const Black := Pixel(0, 0, 0)
  const Red := Pixel(255, 0, 0)
  const NeonGreen := Pixel(57, 255, 20)

  /** An 8-bit channel value, as held by the imaging backend. */
  newtype byte = x: int | 0 <= x < 256

  /** A pixel of the imaging backend's RGB raster. */
  datatype Rgb8 = Rgb8(red: byte, green: byte, blue: byte)

  /** An image as a value: a list of rows, each a list of pixels. */
  type Image = seq<seq<Pixel>>

  /** Every row has the same length; the library assumes this and never checks it. */
  ghost predicate Rectangular(img: Image)
  {
    forall r :: 0 <= r < |img| ==> |img[r]| == |img[0]|
  }

  predicate InByteRange(p: Pixel)
  {
    0 <= p.red < 256 && 0 <= p.green < 256 && 0 <= p.blue < 256
  }

  /** Every pixel has its three channels in 0..255. */
  ghost predicate AllInByteRange(img: Image)
  {
    forall r, c :: 0 <= r < |img| && 0 <= c < |img[r]| ==> InByteRange(img[r][c])
  }

  /** The `(int(p[0]), int(p[1]), int(p[2]))` conversion of a backend pixel. */
  function FromRgb8(q: Rgb8): (p: Pixel)
    ensures InByteRange(p)
    ensures p.red == q.red as int && p.green == q.green as int && p.blue == q.blue as int
  {
    Pixel(q.red as int, q.green as int, q.blue as int)
  }

  /** The conversion of an in-range pixel to the backend's 8-bit representation. */
  function ToRgb8(p: Pixel): (q: Rgb8)
    requires InByteRange(p)
    ensures FromRgb8(q) == p
  {
    Rgb8(p.red as byte, p.green as byte, p.blue as byte)
  }

  lemma ToRgb8FromRgb8(q: Rgb8)
    ensures ToRgb8(FromRgb8(q)) == q
  {
  }
}
