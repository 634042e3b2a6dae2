/** The gradient example: a 256 x 256 logical screen filled once, row by
    row, so that the red channel grows with the column and the blue channel
    with the row. */
module Gradient {
  import opened Pixels

  const Size := 256

  /** The colour of pixel (x, y): red is the column, green 0, blue the row,
      alpha `Size - 1`. Every channel value fits in a byte, so nothing is
      truncated when it is stored. */
  function Shade(x: int, y: int): (p: Px)
    requires 0 <= x < Size && 0 <= y < Size
    ensures p.r == x && p.g == 0 && p.b == y && p.a == Size - 1
  {
    Px(x, 0, y, Size - 1)
  }

  /** The whole picture in row-major order. */
  function Picture(): (pic: seq<Px>)
    ensures |pic| == Size * Size
  {
    seq(Size * Size, i requires 0 <= i < Size * Size => Shade(i % Size, i / Size))
  }

  /** Pixel (x, y) of the picture has the shade of (x, y). */
  lemma PictureAt(x: int, y: int)
    requires 0 <= x < Size && 0 <= y < Size
    ensures 0 <= Index(Size, x, y) < |Picture()|
    ensures Picture()[Index(Size, x, y)] == Shade(x, y)
  {
    IndexInRange(Size, Size, x, y);
  }

  /** Fills the buffer row by row, each offset `y * Size + x` once. */
  method DrawGradient(pixbuf: array<Px>)
    requires pixbuf.Length == Size * Size
    modifies pixbuf
    ensures pixbuf[..] == Picture()
  {
    var y := 0;
    while y < Size
      invariant 0 <= y <= Size
      invariant forall i :: 0 <= i < y * Size ==> pixbuf[i] == Picture()[i]
    {
      var x := 0;
      while x < Size
        invariant 0 <= x <= Size
        invariant forall i :: 0 <= i < y * Size + x ==> pixbuf[i] == Picture()[i]
      {
        pixbuf[y * Size + x] := Shade(x, y);
        PictureAt(x, y);
        x := x + 1;
      }
      y := y + 1;
    }
  }
}
