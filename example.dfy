/** The basic example's frame: an 800 x 600 window showing a logical
    screen ten times smaller, cleared to white every frame, with the centre
    pixel red and the pixel under the cursor blue. */
module Example {
  import opened Pixels

  const WindowWidth := 800
  const WindowHeight := 600

  /** `SCALE` is the unparenthesised macro `1 / 10`, so `WIDTH * SCALE`
      reads `800 * 1 / 10`: the multiplication comes first, so a
      non-negative dimension becomes its tenth rounded down (80, not 0). */
  function Scaled(d: int): (r: int)
    ensures 0 <= d ==> 0 <= r && r * 10 <= d < r * 10 + 10
  {
    d * 1 / 10
  }

  const LogicalWidth := Scaled(WindowWidth)
  const LogicalHeight := Scaled(WindowHeight)
  const HalfWidth := LogicalWidth / 2
  const HalfHeight := LogicalHeight / 2

  /** The cursor colour: blue with alpha 0. */
  const Blue := Px(0, 0, 255, 0)

  lemma Dimensions()
    ensures LogicalWidth == 80 && LogicalHeight == 60
    ensures HalfWidth == 40 && HalfHeight == 30
    ensures Index(LogicalWidth, HalfWidth, HalfHeight) == 30 * 80 + 40
  {
  }

  predicate OnScreen(x: int, y: int) {
    0 <= x < LogicalWidth && 0 <= y < LogicalHeight
  }

  /** One frame: every byte of the buffer set to 255 (every pixel white),
      then the centre pixel red, then the cursor pixel blue when the cursor
      is on the logical screen. The blue write comes last, so it wins over
      red on the centre; no other pixel differs from white. */
  method Frame(pixbuf: array<Px>, mouseX: int, mouseY: int)
    requires pixbuf.Length == LogicalWidth * LogicalHeight
    modifies pixbuf
    ensures var centre := Index(LogicalWidth, HalfWidth, HalfHeight);
            0 <= centre < pixbuf.Length &&
            pixbuf[centre] == (if mouseX == HalfWidth && mouseY == HalfHeight then Blue else Red)
    ensures OnScreen(mouseX, mouseY) ==>
              0 <= Index(LogicalWidth, mouseX, mouseY) < pixbuf.Length &&
              pixbuf[Index(LogicalWidth, mouseX, mouseY)] == Blue
    ensures forall i :: 0 <= i < pixbuf.Length && i != Index(LogicalWidth, HalfWidth, HalfHeight) &&
                        !(OnScreen(mouseX, mouseY) && i == Index(LogicalWidth, mouseX, mouseY)) ==>
                        pixbuf[i] == White
  {
    Dimensions();
    forall i | 0 <= i < pixbuf.Length {
      pixbuf[i] := Px(255, 255, 255, 255);
    }
    pixbuf[HalfHeight * LogicalWidth + HalfWidth] := Red;
    PlotInside(pixbuf, LogicalWidth, LogicalHeight, mouseX, mouseY, Blue);
  }
}
