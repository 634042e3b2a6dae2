/** Pixel records and row-major addressing shared by the engine and the
    example programs: a `Px` is four unsigned 8-bit channels, and a logical
    screen of `width` x `height` pixels is one flat row-major array. */
module Pixels {

  /** An `unsigned char` channel. */
  type byte = b: int | 0 <= b < 256

  datatype Px = Px(r: byte, g: byte, b: byte, a: byte)

  /** C's conversion of a comparison to `int`. */
  function Truth(b: bool): (n: int)
    ensures n == 0 || n == 1
    ensures n == 1 <==> b
  {
    if b then 1 else 0
  }

  const Black := Px(0, 0, 0, 255)
  const White := Px(255, 255, 255, 255)
  const Red := Px(255, 0, 0, 255)

  lemma MulBound(w: int, k: int)
    requires 0 < w
    ensures 1 <= k ==> w <= w * k
    ensures k <= -1 ==> w * k <= -w
  {
  }

  /** `q` and `x` are the quotient and remainder of `q * w + x` by `w`. */
  lemma DivModUnique(w: int, q: int, x: int)
    requires 0 <= x < w
    ensures (q * w + x) / w == q && (q * w + x) % w == x
  {
    var i := q * w + x;
    MulBound(w, i / w - q);
    assert w * (i / w - q) == x - i % w;
  }

  /** Offset of pixel (x, y) in a row-major buffer whose rows are `width`
      pixels long. */
  function Index(width: int, x: int, y: int): int {
    y * width + x
  }

  /** Inside the grid an offset addresses one pixel: dividing it by the
      width gives back the row and the column. */
  lemma IndexCoords(width: int, x: int, y: int)
    requires 0 <= x < width && 0 <= y
    ensures 0 <= Index(width, x, y)
    ensures Index(width, x, y) / width == y && Index(width, x, y) % width == x
  {
    DivModUnique(width, y, x);
  }

  /** Every pixel of a `width` x `height` grid has an offset inside a buffer
      of `width * height` pixels. */
  lemma IndexInRange(width: int, height: int, x: int, y: int)
    requires 0 <= x < width && 0 <= y < height
    ensures 0 <= Index(width, x, y) < width * height
  {
    RowMajorBound(width, height, x, y);
  }

  lemma RowMajorBound(width: int, height: int, x: int, y: int)
    requires 0 <= x < width && 0 <= y < height
    ensures 0 <= y * width + x < width * height
  {
    MulLe(y + 1, height, width);
  }

  lemma MulLe(a: int, b: int, w: int)
    requires 0 <= a <= b && 0 <= w
    ensures 0 <= a * w <= b * w
  {
  }

  /** Every offset inside the buffer is the offset of exactly one pixel:
      its column is `i % width` and its row `i / width`. */
  lemma CoordsOfIndex(width: int, height: int, i: int)
    requires 0 < width && 0 <= i < width * height
    ensures 0 <= i % width < width && 0 <= i / width < height
    ensures Index(width, i % width, i / width) == i
  {
    assert i == (i / width) * width + i % width;
  }

  /** The bounds-checked single-pixel write the example programs make at
      the cursor: the pixel is set only when (x, y) is inside the grid. */
  method PlotInside(pixbuf: array<Px>, width: int, height: int, x: int, y: int, color: Px)
    requires 0 <= width && 0 <= height && pixbuf.Length == width * height
    modifies pixbuf
    ensures 0 <= x < width && 0 <= y < height ==>
              0 <= Index(width, x, y) < pixbuf.Length &&
              pixbuf[..] == old(pixbuf[..])[Index(width, x, y) := color]
    ensures !(0 <= x < width && 0 <= y < height) ==> pixbuf[..] == old(pixbuf[..])
  {
    if x >= 0 && x < width && y >= 0 && y < height {
      IndexInRange(width, height, x, y);
      pixbuf[y * width + x] := color;
    }
  }
}
