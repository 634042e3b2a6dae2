/** One generation of Conway's Game of Life on a bounded grid (no
    wrap-around), computed from `pixbuf` into the scratch buffer `buf` and
    copied back, and the red cursor pixel painted afterwards. A cell is
    alive when its red channel is non-zero. */
module GameOfLife {
  import opened Pixels

  predicate Alive(p: Px) {
    p.r != 0
  }

  /** The pixel at (x, y) of a row-major grid. */
  function PxAt(g: seq<Px>, width: int, height: int, x: int, y: int): Px
    requires |g| == width * height && 0 <= x < width && 0 <= y < height
  {
    IndexInRange(width, height, x, y);
    g[Index(width, x, y)]
  }

  /** 1 for a live cell inside the grid, 0 for a dead one or a position
      outside it. */
  function LiveAt(g: seq<Px>, width: int, height: int, x: int, y: int): int
    requires |g| == width * height
  {
    if 0 <= x < width && 0 <= y < height then Truth(Alive(PxAt(g, width, height, x, y))) else 0
  }

  /** The eight surrounding positions, in the order the source visits them. */
  const Around: seq<(int, int)> := [(1, 0), (1, -1), (0, -1), (-1, -1), (-1, 0), (-1, 1), (0, 1), (1, 1)]

  function LiveAround(g: seq<Px>, width: int, height: int, x: int, y: int, ds: seq<(int, int)>): (n: int)
    requires |g| == width * height
    ensures 0 <= n <= |ds|
  {
    if ds == [] then 0
    else LiveAt(g, width, height, x + ds[0].0, y + ds[0].1) + LiveAround(g, width, height, x, y, ds[1..])
  }

  /** Reference count: the live cells among the eight neighbours of (x, y)
      that lie inside the grid. */
  function Neighbours(g: seq<Px>, width: int, height: int, x: int, y: int): (n: int)
    requires |g| == width * height
    ensures 0 <= n <= 8
  {
    LiveAround(g, width, height, x, y, Around)
  }

  lemma NeighboursUnfold(g: seq<Px>, width: int, height: int, x: int, y: int)
    requires |g| == width * height
    ensures Neighbours(g, width, height, x, y) ==
              LiveAt(g, width, height, x + 1, y) + LiveAt(g, width, height, x + 1, y - 1) +
              LiveAt(g, width, height, x, y - 1) + LiveAt(g, width, height, x - 1, y - 1) +
              LiveAt(g, width, height, x - 1, y) + LiveAt(g, width, height, x - 1, y + 1) +
              LiveAt(g, width, height, x, y + 1) + LiveAt(g, width, height, x + 1, y + 1)
  {
    var ds := Around;
    assert ds[1..] == Around[1..];
    assert LiveAround(g, width, height, x, y, Around[8..]) == 0;
    assert LiveAround(g, width, height, x, y, Around[7..]) == LiveAt(g, width, height, x + 1, y + 1);
    assert LiveAround(g, width, height, x, y, Around[6..]) ==
           LiveAt(g, width, height, x, y + 1) + LiveAround(g, width, height, x, y, Around[7..]);
    assert LiveAround(g, width, height, x, y, Around[5..]) ==
           LiveAt(g, width, height, x - 1, y + 1) + LiveAround(g, width, height, x, y, Around[6..]);
    assert LiveAround(g, width, height, x, y, Around[4..]) ==
           LiveAt(g, width, height, x - 1, y) + LiveAround(g, width, height, x, y, Around[5..]);
    assert LiveAround(g, width, height, x, y, Around[3..]) ==
           LiveAt(g, width, height, x - 1, y - 1) + LiveAround(g, width, height, x, y, Around[4..]);
    assert LiveAround(g, width, height, x, y, Around[2..]) ==
           LiveAt(g, width, height, x, y - 1) + LiveAround(g, width, height, x, y, Around[3..]);
    assert LiveAround(g, width, height, x, y, Around[1..]) ==
           LiveAt(g, width, height, x + 1, y - 1) + LiveAround(g, width, height, x, y, Around[2..]);
  }

  /** Cells on the left or right edge see at most five neighbours, corner
      cells at most three: nothing wraps around. */
  lemma {:induction false} BorderNeighbours(g: seq<Px>, width: int, height: int, x: int, y: int)
    requires |g| == width * height && 0 <= x < width && 0 <= y < height
    ensures x == 0 || x == width - 1 || y == 0 || y == height - 1 ==> Neighbours(g, width, height, x, y) <= 5
    ensures (x == 0 || x == width - 1) && (y == 0 || y == height - 1) ==> Neighbours(g, width, height, x, y) <= 3
  {
    NeighboursUnfold(g, width, height, x, y);
  }

  /** The life rule: a live cell survives with two or three neighbours, a
      dead one is born with exactly three; survivors and births are white,
      everything else black. */
  function Rule(alive: bool, count: int): (p: Px)
    ensures p == White || p == Black
    ensures p == White <==> (alive && (count == 2 || count == 3)) || (!alive && count == 3)
  {
    if alive then (if count == 2 || count == 3 then White else Black)
    else (if count == 3 then White else Black)
  }

  /** The next state of cell `i` (row-major) of generation `g`. */
  function NextCell(g: seq<Px>, width: int, height: int, i: int): Px
    requires 0 <= width && |g| == width * height && 0 <= i < |g|
  {
    CoordsOfIndex(width, height, i);
    Rule(Alive(g[i]), Neighbours(g, width, height, i % width, i / width))
  }

  function NextGen(g: seq<Px>, width: int, height: int): (n: seq<Px>)
    requires 0 <= width && |g| == width * height
    ensures |n| == |g|
    ensures forall i :: 0 <= i < |n| ==> n[i] == NextCell(g, width, height, i)
  {
    seq(|g|, i requires 0 <= i < |g| => NextCell(g, width, height, i))
  }

  /** The next generation depends on nothing but which cells have a
      non-zero red channel. */
  lemma {:induction false} OnlyRedMatters(g1: seq<Px>, g2: seq<Px>, width: int, height: int)
    requires 0 <= width && |g1| == width * height && |g2| == width * height
    requires forall i :: 0 <= i < |g1| ==> (Alive(g1[i]) <==> Alive(g2[i]))
    ensures NextGen(g1, width, height) == NextGen(g2, width, height)
  {
    forall x, y | 0 <= x < width && 0 <= y < height
      ensures LiveAt(g1, width, height, x, y) == LiveAt(g2, width, height, x, y)
    {
      IndexInRange(width, height, x, y);
    }
    forall i | 0 <= i < |g1|
      ensures NextCell(g1, width, height, i) == NextCell(g2, width, height, i)
    {
      CoordsOfIndex(width, height, i);
      var x, y := i % width, i / width;
      NeighboursUnfold(g1, width, height, x, y);
      NeighboursUnfold(g2, width, height, x, y);
    }
  }

  /** A generation in which every cell is dead stays dead. */
  lemma {:induction false} DeadStaysDead(g: seq<Px>, width: int, height: int)
    requires 0 <= width && |g| == width * height
    requires forall i :: 0 <= i < |g| ==> !Alive(g[i])
    ensures forall i :: 0 <= i < |g| ==> NextGen(g, width, height)[i] == Black
  {
    forall i | 0 <= i < |g| ensures NextCell(g, width, height, i) == Black {
      CoordsOfIndex(width, height, i);
      var x, y := i % width, i / width;
      NeighboursUnfold(g, width, height, x, y);
      forall xx, yy | 0 <= xx < width && 0 <= yy < height
        ensures LiveAt(g, width, height, xx, yy) == 0
      {
        IndexInRange(width, height, xx, yy);
      }
    }
  }

  /** The neighbour count as the source computes it: eight terms, each
      guarded by the bounds checks for its own direction. */
  method CountNeighbours(pixbuf: array<Px>, width: int, height: int, x: int, y: int) returns (count: int)
    requires pixbuf.Length == width * height && 0 <= x < width && 0 <= y < height
    ensures count == Neighbours(pixbuf[..], width, height, x, y)
  {
    ghost var g := pixbuf[..];
    forall xx, yy | 0 <= xx < width && 0 <= yy < height
      ensures 0 <= Index(width, xx, yy) < pixbuf.Length
    {
      IndexInRange(width, height, xx, yy);
    }
    count := 0;
    count := count + Truth(x + 1 < width && Alive(pixbuf[Index(width, x + 1, y)]));
    count := count + Truth(x + 1 < width && y > 0 && Alive(pixbuf[Index(width, x + 1, y - 1)]));
    count := count + Truth(y > 0 && Alive(pixbuf[Index(width, x, y - 1)]));
    count := count + Truth(x > 0 && y > 0 && Alive(pixbuf[Index(width, x - 1, y - 1)]));
    count := count + Truth(x > 0 && Alive(pixbuf[Index(width, x - 1, y)]));
    count := count + Truth(x > 0 && y + 1 < height && Alive(pixbuf[Index(width, x - 1, y + 1)]));
    count := count + Truth(y + 1 < height && Alive(pixbuf[Index(width, x, y + 1)]));
    count := count + Truth(x + 1 < width && y + 1 < height && Alive(pixbuf[Index(width, x + 1, y + 1)]));
    NeighboursUnfold(g, width, height, x, y);
  }

  /** Cell (x, y) is cell `index` of the row-major order. */
  lemma CellIndex(g: seq<Px>, width: int, height: int, x: int, y: int, index: int)
    requires |g| == width * height && 0 <= x < width && 0 <= y < height && index == y * width + x
    ensures 0 <= index < |g|
    ensures NextCell(g, width, height, index) == Rule(Alive(g[index]), Neighbours(g, width, height, x, y))
  {
    IndexInRange(width, height, x, y);
    IndexCoords(width, x, y);
    assert index == Index(width, x, y);
  }

  lemma RowEnd(width: int, y: int, index: int)
    requires index == y * width + width
    ensures index == (y + 1) * width
  {
  }

  /** One generation: every cell of `buf` is written from `pixbuf` alone,
      then `buf` is copied over `pixbuf`. */
  method PxUpdate(pixbuf: array<Px>, buf: array<Px>, width: int, height: int)
    requires pixbuf != buf
    requires 0 <= width && 0 <= height
    requires pixbuf.Length == width * height && buf.Length == width * height
    modifies pixbuf, buf
    ensures buf[..] == NextGen(old(pixbuf[..]), width, height)
    ensures pixbuf[..] == buf[..]
  {
    ghost var g := pixbuf[..];
    var index := 0;
    var y := 0;
    while y < height
      invariant 0 <= y <= height
      invariant index == y * width && index <= buf.Length
      invariant pixbuf[..] == g
      invariant forall i :: 0 <= i < index ==> buf[i] == NextCell(g, width, height, i)
    {
      var x := 0;
      while x < width
        invariant 0 <= x <= width
        invariant index == y * width + x && index <= buf.Length
        invariant pixbuf[..] == g
        invariant forall i :: 0 <= i < index ==> buf[i] == NextCell(g, width, height, i)
      {
        var count := CountNeighbours(pixbuf, width, height, x, y);
        CellIndex(g, width, height, x, y, index);
        buf[index] := Rule(Alive(pixbuf[index]), count);
        x, index := x + 1, index + 1;
      }
      RowEnd(width, y, index);
      y := y + 1;
    }
    assert index == buf.Length;
    forall i | 0 <= i < pixbuf.Length {
      pixbuf[i] := buf[i];
    }
  }

  /** The per-frame body: one generation, then the red cursor pixel when
      the cursor is over the grid. */
  method Frame(pixbuf: array<Px>, buf: array<Px>, width: int, height: int, mousex: int, mousey: int)
    requires pixbuf != buf
    requires 0 <= width && 0 <= height
    requires pixbuf.Length == width * height && buf.Length == width * height
    modifies pixbuf, buf
    ensures buf[..] == NextGen(old(pixbuf[..]), width, height)
    ensures 0 <= mousex < width && 0 <= mousey < height ==>
              0 <= Index(width, mousex, mousey) < pixbuf.Length &&
              pixbuf[..] == buf[..][Index(width, mousex, mousey) := Red]
    ensures !(0 <= mousex < width && 0 <= mousey < height) ==> pixbuf[..] == buf[..]
  {
    PxUpdate(pixbuf, buf, width, height);
    PlotInside(pixbuf, width, height, mousex, mousey, Red);
  }
}
