/** One step of the falling-sand simulation. Row 0 is the bottom row of the
    buffer. Every cell is visited in row-major order: a sand grain (red
    channel above 124) is normalised to the sand colour in `pixbuf` and, if
    it is not on row 0, falls into the first free cell among straight down,
    down-right and down-left, written into the scratch buffer `buf`, leaving
    air behind; every other cell is written as air. `buf` is then copied
    over `pixbuf`. The air colour of a row depends on the row through a
    float expression; here it is the parameter `blue`, the blue channel of
    each row's air. */
module SandSim {
  import opened Pixels

  datatype Option<T> = None | Some(value: T)

  const Sand := Px(125, 125, 0, 255)

  /** The air colour of a row with blue channel `blue`: never sand, and
      free for a grain to fall into. */
  function Air(blue: byte): (p: Px)
    ensures !IsSand(p) && Free(p) && p.b == blue
  {
    Px(100, 100, blue, 255)
  }

  predicate IsSand(p: Px) {
    p.r > 124
  }

  /** A grain may fall into a cell whose red channel is below 125. */
  predicate Free(p: Px) {
    p.r < 125
  }

  function Normalise(p: Px): (q: Px)
    ensures IsSand(q) <==> IsSand(p)
    ensures Free(q) <==> Free(p)
  {
    if IsSand(p) then Sand else p
  }

  predicate Grid(g: seq<Px>, width: int, height: int) {
    0 <= width && 0 <= height && |g| == width * height
  }

  /** Where a grain at cell `i` of the (old) grid `g` falls: straight down,
      else down-right, else down-left, each only when that cell exists and
      is free; never from row 0. */
  function Target(g: seq<Px>, width: int, height: int, i: int): (t: Option<int>)
    requires Grid(g, width, height) && 0 <= i < |g|
    ensures t.Some? ==> 0 <= t.value < |g| && Free(g[t.value])
    ensures t.None? <==>
              i < width ||
              (!Free(g[i - width]) &&
               (i % width + 1 < width ==> !Free(g[i - width + 1])) &&
               (i % width > 0 ==> !Free(g[i - width - 1])))
  {
    CoordsOfIndex(width, height, i);
    var x, y := i % width, i / width;
    if y == 0 then None
    else
      RowBelow(width, x, y);
      if Free(g[i - width]) then Some(i - width)
      else if x + 1 < width && Free(g[i - width + 1]) then Some(i - width + 1)
      else if x > 0 && Free(g[i - width - 1]) then Some(i - width - 1)
      else None
  }

  /** The three cells below (x, y) are at offsets -width - 1 .. -width + 1. */
  lemma RowBelow(width: int, x: int, y: int)
    requires 0 <= x < width && 0 < y
    ensures Index(width, x, y) >= width
    ensures Index(width, x, y) - width == Index(width, x, y - 1)
    ensures x + 1 < width ==> Index(width, x, y) - width + 1 == Index(width, x + 1, y - 1)
    ensures x > 0 ==> Index(width, x, y) - width - 1 == Index(width, x - 1, y - 1)
  {
    assert (y - 1) * width == y * width - width;
  }

  /** A grain only ever lands on the row directly below it, at most one
      column to either side. */
  lemma TargetGeometry(g: seq<Px>, width: int, height: int, i: int)
    requires Grid(g, width, height) && 0 <= i < |g| && Target(g, width, height, i).Some?
    ensures Target(g, width, height, i).value / width == i / width - 1
    ensures -1 <= Target(g, width, height, i).value % width - i % width <= 1
  {
    CoordsOfIndex(width, height, i);
    var x, y := i % width, i / width;
    RowBelow(width, x, y);
    var t := Target(g, width, height, i).value;
    if t == i - width {
      IndexCoords(width, x, y - 1);
    } else if t == i - width + 1 {
      IndexCoords(width, x + 1, y - 1);
    } else {
      IndexCoords(width, x - 1, y - 1);
    }
  }

  /** The grain at `j` falls into cell `c`. */
  predicate Mover(g: seq<Px>, width: int, height: int, j: int, c: int)
    requires Grid(g, width, height) && 0 <= j < |g|
  {
    IsSand(g[j]) && Target(g, width, height, j) == Some(c)
  }

  /** Some grain of the first `k` cells falls into cell `c`. */
  predicate MovedIn(g: seq<Px>, width: int, height: int, k: int, c: int)
    requires Grid(g, width, height) && k <= |g|
  {
    exists j :: 0 <= j < k && Mover(g, width, height, j, c)
  }

  /** What visiting cell `c` leaves in its own `buf` cell: air for a
      non-sand cell and for a grain that falls, the previous contents `b[c]`
      for a grain that stays. */
  function Own(g: seq<Px>, b: seq<Px>, width: int, height: int, blue: int -> byte, c: int): Px
    requires Grid(g, width, height) && |b| == |g| && 0 <= c < |g|
  {
    if !IsSand(g[c]) || Target(g, width, height, c).Some? then Air(blue(c / width)) else b[c]
  }

  /** The scratch buffer after the pass, from the old grid `g` and the old
      scratch buffer `b`: sand wherever some grain falls, otherwise what the
      visit of the cell itself left. */
  function SandNext(g: seq<Px>, b: seq<Px>, width: int, height: int, blue: int -> byte): (n: seq<Px>)
    requires Grid(g, width, height) && |b| == |g|
    ensures |n| == |g|
  {
    seq(|g|, c requires 0 <= c < |g| =>
      if MovedIn(g, width, height, |g|, c) then Sand else Own(g, b, width, height, blue, c))
  }

  // ---------------------------------------------------------------------
  // Properties of the step

  /** A grain only ever lands on the row directly below it, at most one
      column to either side, and so on a cell visited before it. */
  lemma MoverGeometry(g: seq<Px>, width: int, height: int, j: int, c: int)
    requires Grid(g, width, height) && 0 <= j < |g| && Mover(g, width, height, j, c)
    ensures 0 <= c < j
    ensures c / width + 1 == j / width && -1 <= c % width - j % width <= 1
  {
    TargetGeometry(g, width, height, j);
    CoordsOfIndex(width, height, j);
    CoordsOfIndex(width, height, c);
  }

  /** Grains on row 0 never move. */
  lemma {:induction false} BottomRowStays(g: seq<Px>, b: seq<Px>, width: int, height: int, blue: int -> byte, c: int)
    requires Grid(g, width, height) && |b| == |g| && 0 <= c < width && c < |g| && IsSand(g[c])
    ensures SandNext(g, b, width, height, blue)[c] == b[c]
  {
    StuckGrainKeepsBuf(g, b, width, height, blue, c);
  }

  /** A grain that cannot fall makes no write to its own `buf` cell, which
      keeps its previous contents, and no grain falls onto it. */
  lemma {:induction false} StuckGrainKeepsBuf(g: seq<Px>, b: seq<Px>, width: int, height: int, blue: int -> byte, c: int)
    requires Grid(g, width, height) && |b| == |g| && 0 <= c < |g|
    requires IsSand(g[c]) && Target(g, width, height, c).None?
    ensures SandNext(g, b, width, height, blue)[c] == b[c]
  {
  }

  /** A grain that falls leaves air behind and sand where it lands. */
  lemma {:induction false} FallingGrain(g: seq<Px>, b: seq<Px>, width: int, height: int, blue: int -> byte, c: int)
    requires Grid(g, width, height) && |b| == |g| && 0 <= c < |g|
    requires IsSand(g[c]) && Target(g, width, height, c).Some?
    ensures SandNext(g, b, width, height, blue)[Target(g, width, height, c).value] == Sand
    ensures SandNext(g, b, width, height, blue)[c] == Air(blue(c / width))
  {
    var t := Target(g, width, height, c).value;
    assert Mover(g, width, height, c, t);
  }

  /** A cell without sand becomes air unless a grain from the row above
      falls onto it, and then it becomes sand. */
  lemma {:induction false} EmptyCell(g: seq<Px>, b: seq<Px>, width: int, height: int, blue: int -> byte, c: int)
    requires Grid(g, width, height) && |b| == |g| && 0 <= c < |g| && !IsSand(g[c])
    ensures SandNext(g, b, width, height, blue)[c] ==
              if MovedIn(g, width, height, |g|, c) then Sand else Air(blue(c / width))
    ensures MovedIn(g, width, height, |g|, c) ==>
              exists j :: 0 <= j < |g| && j / width == c / width + 1 && Mover(g, width, height, j, c)
  {
    if MovedIn(g, width, height, |g|, c) {
      var j :| 0 <= j < |g| && Mover(g, width, height, j, c);
      MoverGeometry(g, width, height, j, c);
    }
  }

  // ---------------------------------------------------------------------
  // The pass, one cell at a time

  /** `g` with its first `k` cells normalised: `pixbuf` after `k` visits. */
  function NormalisedUpTo(g: seq<Px>, k: int): (n: seq<Px>)
    ensures |n| == |g|
  {
    seq(|g|, c requires 0 <= c < |g| => if c < k then Normalise(g[c]) else g[c])
  }

  /** `buf` after `k` visits. */
  function Partial(g: seq<Px>, b: seq<Px>, width: int, height: int, blue: int -> byte, k: int): (n: seq<Px>)
    requires Grid(g, width, height) && |b| == |g| && 0 <= k <= |g|
    ensures |n| == |g|
  {
    seq(|g|, c requires 0 <= c < |g| =>
      if MovedIn(g, width, height, k, c) then Sand
      else if c < k then Own(g, b, width, height, blue, c)
      else b[c])
  }

  /** What the visit of cell `k` writes to `buf`. */
  function VisitBuf(g: seq<Px>, width: int, height: int, blue: int -> byte, s: seq<Px>, k: int): (r: seq<Px>)
    requires Grid(g, width, height) && |s| == |g| && 0 <= k < |g|
    ensures |r| == |s|
    ensures IsSand(g[k]) && Target(g, width, height, k).None? ==> r == s
    ensures !IsSand(g[k]) || Target(g, width, height, k).Some? ==> r[k] == Air(blue(k / width))
    ensures IsSand(g[k]) && Target(g, width, height, k).Some? ==> r[Target(g, width, height, k).value] == Sand
    ensures forall c :: 0 <= c < |s| && c != k && !(IsSand(g[k]) && Target(g, width, height, k) == Some(c)) ==>
              r[c] == s[c]
  {
    if !IsSand(g[k]) then s[k := Air(blue(k / width))]
    else match Target(g, width, height, k)
      case None => s
      case Some(t) => s[t := Sand][k := Air(blue(k / width))]
  }

  lemma {:induction false} PartialStep(g: seq<Px>, b: seq<Px>, width: int, height: int, blue: int -> byte, k: int)
    requires Grid(g, width, height) && |b| == |g| && 0 <= k < |g|
    ensures VisitBuf(g, width, height, blue, Partial(g, b, width, height, blue, k), k) ==
            Partial(g, b, width, height, blue, k + 1)
  {
    var before := Partial(g, b, width, height, blue, k);
    var after := Partial(g, b, width, height, blue, k + 1);
    var v := VisitBuf(g, width, height, blue, before, k);
    assert !MovedIn(g, width, height, k + 1, k) by {
      if MovedIn(g, width, height, k + 1, k) {
        var j :| 0 <= j < k + 1 && Mover(g, width, height, j, k);
        MoverGeometry(g, width, height, j, k);
      }
    }
    forall c | 0 <= c < |g| ensures v[c] == after[c] {
      if c != k {
        if Mover(g, width, height, k, c) {
          assert MovedIn(g, width, height, k + 1, c);
        } else if MovedIn(g, width, height, k + 1, c) {
          var j :| 0 <= j < k + 1 && Mover(g, width, height, j, c);
          assert j != k;
          assert MovedIn(g, width, height, k, c);
        } else {
          assert !MovedIn(g, width, height, k, c);
        }
      }
    }
  }

  lemma PartialDone(g: seq<Px>, b: seq<Px>, width: int, height: int, blue: int -> byte)
    requires Grid(g, width, height) && |b| == |g|
    ensures Partial(g, b, width, height, blue, |g|) == SandNext(g, b, width, height, blue)
  {
  }

  lemma PartialStart(g: seq<Px>, b: seq<Px>, width: int, height: int, blue: int -> byte)
    requires Grid(g, width, height) && |b| == |g|
    ensures Partial(g, b, width, height, blue, 0) == b
  {
  }

  /** `Target` of cell (x, y), which is cell `i`, in terms of the cells
      below it. */
  lemma TargetOf(g: seq<Px>, width: int, height: int, x: int, y: int, i: int)
    requires Grid(g, width, height) && 0 <= x < width && 0 <= y < height && i == y * width + x
    ensures 0 <= i < |g| && i / width == y
    ensures y > 0 ==> (y - 1) * width + x == i - width && 0 <= i - width
    ensures y > 0 && x > 0 ==> 0 <= i - width - 1
    ensures Target(g, width, height, i) ==
              if y == 0 then None
              else if Free(g[i - width]) then Some(i - width)
              else if x + 1 < width && Free(g[i - width + 1]) then Some(i - width + 1)
              else if x > 0 && Free(g[i - width - 1]) then Some(i - width - 1)
              else None
  {
    IndexInRange(width, height, x, y);
    IndexCoords(width, x, y);
    if y > 0 {
      RowBelow(width, x, y);
    }
  }

  /** The cells before `k` are already normalised, which keeps them free or
      not free. */
  lemma NormalisedFree(g: seq<Px>, k: int, c: int)
    requires 0 <= c < k && c < |g|
    ensures Free(NormalisedUpTo(g, k)[c]) == Free(g[c])
  {
  }

  /** The body of the inner loop for cell (x, y), which is cell `index`. */
  method Visit(pixbuf: array<Px>, buf: array<Px>, width: int, height: int, blue: int -> byte,
               x: int, y: int, index: int, ghost g: seq<Px>)
    requires pixbuf != buf && Grid(g, width, height) && buf.Length == |g|
    requires 0 <= x < width && 0 <= y < height && index == y * width + x
    requires pixbuf[..] == NormalisedUpTo(g, index)
    modifies pixbuf, buf
    ensures 0 <= index < |g|
    ensures pixbuf[..] == NormalisedUpTo(g, index + 1)
    ensures buf[..] == VisitBuf(g, width, height, blue, old(buf[..]), index)
  {
    TargetOf(g, width, height, x, y, index);
    assert pixbuf[index] == g[index];
    if pixbuf[index].r > 124 {
      pixbuf[index] := Sand;
      if y > 0 {
        NormalisedFree(g, index, index - width);
        if x + 1 < width {
          NormalisedFree(g, index, index - width + 1);
        }
        if x > 0 {
          NormalisedFree(g, index, index - width - 1);
        }
        if pixbuf[(y - 1) * width + x].r < 125 {
          buf[(y - 1) * width + x] := Sand;
          buf[index] := Air(blue(y));
        } else if x + 1 < width && pixbuf[(y - 1) * width + x + 1].r < 125 {
          buf[(y - 1) * width + x + 1] := Sand;
          buf[index] := Air(blue(y));
        } else if x > 0 && pixbuf[(y - 1) * width + x - 1].r < 125 {
          buf[(y - 1) * width + x - 1] := Sand;
          buf[index] := Air(blue(y));
        }
      }
    } else {
      buf[index] := Air(blue(y));
    }
  }

  /** The two nested loops: `pixbuf` ends normalised and `buf` holds the
      next state. */
  method Pass(pixbuf: array<Px>, buf: array<Px>, width: int, height: int, blue: int -> byte)
    requires pixbuf != buf && Grid(pixbuf[..], width, height) && buf.Length == pixbuf.Length
    modifies pixbuf, buf
    ensures pixbuf[..] == NormalisedUpTo(old(pixbuf[..]), pixbuf.Length)
    ensures buf[..] == SandNext(old(pixbuf[..]), old(buf[..]), width, height, blue)
  {
    ghost var g, b := pixbuf[..], buf[..];
    PartialStart(g, b, width, height, blue);
    var index := 0;
    var y := 0;
    while y < height
      invariant 0 <= y <= height
      invariant index == y * width && index <= |g|
      invariant pixbuf[..] == NormalisedUpTo(g, index)
      invariant buf[..] == Partial(g, b, width, height, blue, index)
    {
      var x := 0;
      while x < width
        invariant 0 <= x <= width
        invariant index == y * width + x && index <= |g|
        invariant pixbuf[..] == NormalisedUpTo(g, index)
        invariant buf[..] == Partial(g, b, width, height, blue, index)
      {
        IndexInRange(width, height, x, y);
        Visit(pixbuf, buf, width, height, blue, x, y, index, g);
        PartialStep(g, b, width, height, blue, index);
        x, index := x + 1, index + 1;
      }
      y := y + 1;
    }
    assert index == |g|;
    PartialDone(g, b, width, height, blue);
  }

  /** One simulation step: the pass, then `buf` copied over `pixbuf`. */
  method PxUpdate(pixbuf: array<Px>, buf: array<Px>, width: int, height: int, blue: int -> byte)
    requires pixbuf != buf && Grid(pixbuf[..], width, height) && buf.Length == pixbuf.Length
    modifies pixbuf, buf
    ensures buf[..] == SandNext(old(pixbuf[..]), old(buf[..]), width, height, blue)
    ensures pixbuf[..] == buf[..]
  {
    Pass(pixbuf, buf, width, height, blue);
    forall i | 0 <= i < pixbuf.Length {
      pixbuf[i] := buf[i];
    }
  }
}
