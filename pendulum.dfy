/** Line drawing in the pendulum example: `plot` stores one pixel at its
    row-major offset without any bounds check, and `plotLine` walks from
    `p0` to `p1` with Bresenham's integer error term, plotting every point
    it visits. */
module Pendulum {
  import opened Pixels

  datatype Point = Point(x: int, y: int)

  function Abs(v: int): int {
    if v < 0 then -v else v
  }

  /** `v` lies between `a` and `b`, in whichever order they come. */
  predicate Between(v: int, a: int, b: int) {
    (a <= v <= b) || (b <= v <= a)
  }

  predicate InGrid(p: Point, width: int, height: int) {
    0 <= p.x < width && 0 <= p.y < height
  }

  /** Steps of `s` along one axis lead from `a` towards `b`. */
  predicate Toward(a: int, b: int, s: int) {
    (s == 1 || s == -1) && (a < b ==> s == 1) && (b < a ==> s == -1)
  }

  /** `a` and `b` are the same pixel or touch, diagonally included. */
  predicate Near(a: Point, b: Point) {
    -1 <= a.x - b.x <= 1 && -1 <= a.y - b.y <= 1
  }

  /** The step along one axis from `a` towards `b`; -1 when they are equal. */
  function Dir(a: int, b: int): int {
    if a < b then 1 else -1
  }

  function Steps(p0: Point, p1: Point): Point {
    Point(Dir(p0.x, p1.x), Dir(p0.y, p1.y))
  }

  /** Manhattan distance left to walk. */
  function Dist(p: Point, q: Point): nat {
    Abs(q.x - p.x) + Abs(q.y - p.y)
  }

  /** What one pass of the drawing loop does after plotting the current
      point: stop, or go on from the next point with the updated error. */
  datatype Move = Stop | Go(next: Point, error: int)

  /** One pass of the loop body from point `p`, step `s`, the constant
      deltas `dx >= 0 >= dy` and the current error term, with the loop's
      three breaks as written. The next point is strictly closer to `p1`,
      between `p` and `p1`, and at most one pixel away on each axis; the
      loop always stops at `p1`. */
  function Step(p: Point, p1: Point, s: Point, dx: int, dy: int, error: int): (m: Move)
    requires Toward(p.x, p1.x, s.x) && Toward(p.y, p1.y, s.y) && dy <= 0 <= dx
    ensures p == p1 ==> m == Stop
    ensures m.Go? ==>
              Toward(m.next.x, p1.x, s.x) && Toward(m.next.y, p1.y, s.y) &&
              Dist(m.next, p1) < Dist(p, p1) &&
              Between(m.next.x, p.x, p1.x) && Between(m.next.y, p.y, p1.y) &&
              Near(m.next, p)
  {
    if p == p1 then Stop
    else
      var e2 := 2 * error;
      if e2 >= dy && p.x == p1.x then Stop
      else
        var x := if e2 >= dy then p.x + s.x else p.x;
        var error1 := if e2 >= dy then error + dy else error;
        if e2 <= dx && p.y == p1.y then Stop
        else
          var y := if e2 <= dx then p.y + s.y else p.y;
          var error2 := if e2 <= dx then error1 + dx else error1;
          Go(Point(x, y), error2)
  }

  /** Where the loop goes when none of its breaks fires. */
  lemma StepGo(p: Point, p1: Point, s: Point, dx: int, dy: int, error: int)
    requires Toward(p.x, p1.x, s.x) && Toward(p.y, p1.y, s.y) && dy <= 0 <= dx
    requires p != p1 && !(2 * error >= dy && p.x == p1.x) && !(2 * error <= dx && p.y == p1.y)
    ensures Step(p, p1, s, dx, dy, error) ==
              Go(Point(if 2 * error >= dy then p.x + s.x else p.x, if 2 * error <= dx then p.y + s.y else p.y),
                 error + (if 2 * error >= dy then dy else 0) + (if 2 * error <= dx then dx else 0))
  {
  }

  function Last(ps: seq<Point>): Point
    requires 1 <= |ps|
  {
    ps[|ps| - 1]
  }

  /** Every point of `ps` lies in the box spanned by `a` and `b`. */
  predicate InBox(ps: seq<Point>, a: Point, b: Point) {
    forall i :: 0 <= i < |ps| ==> Between(ps[i].x, a.x, b.x) && Between(ps[i].y, a.y, b.y)
  }

  /** `q` occurs in `ps` at most as its last element. */
  predicate OnlyLast(ps: seq<Point>, q: Point) {
    forall i :: 0 <= i < |ps| - 1 ==> ps[i] != q
  }

  /** Consecutive points of `ps` touch. */
  predicate Connected(ps: seq<Point>) {
    forall i :: 0 < i < |ps| ==> Near(ps[i], ps[i - 1])
  }

  /** The points the drawing loop plots from the current point on: the
      current point, then, unless the loop stops, those from the next. */
  function Line(p: Point, p1: Point, s: Point, dx: int, dy: int, error: int): (ps: seq<Point>)
    requires Toward(p.x, p1.x, s.x) && Toward(p.y, p1.y, s.y) && dy <= 0 <= dx
    ensures 1 <= |ps| && ps[0] == p
    decreases Dist(p, p1)
  {
    match Step(p, p1, s, dx, dy, error)
    case Stop => [p]
    case Go(q, e) => [p] + Line(q, p1, s, dx, dy, e)
  }

  /** Past its first point, the walk is the walk from the next point. */
  lemma LineTail(p: Point, p1: Point, s: Point, dx: int, dy: int, error: int)
    requires Toward(p.x, p1.x, s.x) && Toward(p.y, p1.y, s.y) && dy <= 0 <= dx
    ensures Step(p, p1, s, dx, dy, error).Stop? ==> Line(p, p1, s, dx, dy, error)[1..] == []
    ensures Step(p, p1, s, dx, dy, error).Go? ==>
              Line(p, p1, s, dx, dy, error)[1..] ==
              Line(Step(p, p1, s, dx, dy, error).next, p1, s, dx, dy, Step(p, p1, s, dx, dy, error).error)
  {
    var m := Step(p, p1, s, dx, dy, error);
    if m.Go? {
      var rest := Line(m.next, p1, s, dx, dy, m.error);
      assert Line(p, p1, s, dx, dy, error) == [p] + rest;
      assert ([p] + rest)[1..] == rest;
    }
  }

  /** The walk stays in the box spanned by `p` and `p1`, moves at most one
      pixel per axis from one point to the next, and reaches `p1` at most
      as its last point. */
  lemma {:induction false} LineShape(p: Point, p1: Point, s: Point, dx: int, dy: int, error: int)
    requires Toward(p.x, p1.x, s.x) && Toward(p.y, p1.y, s.y) && dy <= 0 <= dx
    ensures InBox(Line(p, p1, s, dx, dy, error), p, p1)
    ensures OnlyLast(Line(p, p1, s, dx, dy, error), p1)
    ensures Connected(Line(p, p1, s, dx, dy, error))
    decreases Dist(p, p1)
  {
    var m := Step(p, p1, s, dx, dy, error);
    if m.Go? {
      var q, e := m.next, m.error;
      LineShape(q, p1, s, dx, dy, e);
      var rest := Line(q, p1, s, dx, dy, e);
      var ps := Line(p, p1, s, dx, dy, error);
      assert ps == [p] + rest;
      forall i | 0 < i < |ps| ensures Between(ps[i].x, p.x, p1.x) && Between(ps[i].y, p.y, p1.y) {
        assert ps[i] == rest[i - 1];
        assert Between(rest[i - 1].x, q.x, p1.x) && Between(rest[i - 1].y, q.y, p1.y);
      }
      forall i | 0 < i < |ps| - 1 ensures ps[i] != p1 {
        assert ps[i] == rest[i - 1];
      }
      forall i | 1 < i < |ps| ensures Near(ps[i], ps[i - 1]) {
        assert ps[i] == rest[i - 1] && ps[i - 1] == rest[i - 2];
      }
      assert ps[1] == q;
    }
  }

  /** The error term as a function of the distance left on each axis: with
      `a == dx` and `b == -dy`, it starts at `a - b` and each step along x
      subtracts `b`, each step along y adds `a`. */
  predicate ErrorInv(p: Point, p1: Point, dx: int, dy: int, error: int) {
    0 <= dx && dy <= 0 &&
    Abs(p1.x - p.x) <= dx && Abs(p1.y - p.y) <= -dy &&
    error == dx + dy - Abs(p1.x - p.x) * dy - Abs(p1.y - p.y) * dx
  }

  /** Under the error invariant neither inner break fires, so the walk
      goes on until it has plotted `p1`. */
  lemma {:induction false} LineEndsAtTarget(p: Point, p1: Point, s: Point, dx: int, dy: int, error: int)
    requires Toward(p.x, p1.x, s.x) && Toward(p.y, p1.y, s.y)
    requires ErrorInv(p, p1, dx, dy, error)
    ensures Last(Line(p, p1, s, dx, dy, error)) == p1
    decreases Dist(p, p1)
  {
    if p != p1 {
      StepKeepsError(p, p1, s, dx, dy, error);
      var m := Step(p, p1, s, dx, dy, error);
      LineEndsAtTarget(m.next, p1, s, dx, dy, m.error);
    }
  }

  lemma MulAtLeast(r: int, d: int)
    requires 1 <= r && 0 <= d
    ensures d <= r * d
  {
  }

  /** The error term after a step along x (`xs`) and/or y (`ys`), in terms
      of the distances left before the step. */
  lemma ErrorUpdate(rx: int, ry: int, dx: int, dy: int, error: int, xs: bool, ys: bool)
    requires error == dx + dy - rx * dy - ry * dx
    ensures error + (if xs then dy else 0) + (if ys then dx else 0) ==
            dx + dy - (if xs then rx - 1 else rx) * dy - (if ys then ry - 1 else ry) * dx
  {
    assert (rx - 1) * dy == rx * dy - dy;
    assert (ry - 1) * dx == ry * dx - dx;
  }

  /** Away from `p1`, neither inner break of the loop fires. */
  lemma NoStopAway(p: Point, p1: Point, s: Point, dx: int, dy: int, error: int)
    requires Toward(p.x, p1.x, s.x) && Toward(p.y, p1.y, s.y)
    requires ErrorInv(p, p1, dx, dy, error) && p != p1
    ensures !(2 * error >= dy && p.x == p1.x) && !(2 * error <= dx && p.y == p1.y)
  {
    var rx, ry := Abs(p1.x - p.x), Abs(p1.y - p.y);
    if p.x == p1.x {
      // no x distance left, some y distance: the error is at most dy
      MulAtLeast(ry, dx);
    }
    if p.y == p1.y {
      // no y distance left, some x distance: the error is at least dx
      MulAtLeast(rx, -dy);
    }
  }

  /** Away from `p1` the loop never stops, and the next state satisfies the
      error invariant again. */
  lemma StepKeepsError(p: Point, p1: Point, s: Point, dx: int, dy: int, error: int)
    requires Toward(p.x, p1.x, s.x) && Toward(p.y, p1.y, s.y)
    requires ErrorInv(p, p1, dx, dy, error) && p != p1
    ensures Step(p, p1, s, dx, dy, error).Go?
    ensures ErrorInv(Step(p, p1, s, dx, dy, error).next, p1, dx, dy, Step(p, p1, s, dx, dy, error).error)
  {
    NoStopAway(p, p1, s, dx, dy, error);
    var e2 := 2 * error;
    var x := if e2 >= dy then p.x + s.x else p.x;
    var y := if e2 <= dx then p.y + s.y else p.y;
    var error1 := if e2 >= dy then error + dy else error;
    var error2 := if e2 <= dx then error1 + dx else error1;
    assert Step(p, p1, s, dx, dy, error) == Go(Point(x, y), error2);
    var rx, ry := Abs(p1.x - p.x), Abs(p1.y - p.y);
    ErrorUpdate(rx, ry, dx, dy, error, e2 >= dy, e2 <= dx);
    assert Abs(p1.x - x) == if e2 >= dy then rx - 1 else rx;
    assert Abs(p1.y - y) == if e2 <= dx then ry - 1 else ry;
  }

  /** The whole line as `plotLine` sets it up: deltas, steps and the
      initial error term from the two endpoints. */
  function BresenhamLine(p0: Point, p1: Point): (ps: seq<Point>)
    ensures 1 <= |ps| && ps[0] == p0
  {
    var dx := Abs(p1.x - p0.x);
    var dy := -Abs(p1.y - p0.y);
    Line(p0, p1, Steps(p0, p1), dx, dy, dx + dy)
  }

  /** The initial error term satisfies the error invariant. */
  lemma StartError(p0: Point, p1: Point)
    ensures ErrorInv(p0, p1, Abs(p1.x - p0.x), -Abs(p1.y - p0.y), Abs(p1.x - p0.x) + -Abs(p1.y - p0.y))
  {
    var a, b := Abs(p1.x - p0.x), Abs(p1.y - p0.y);
    assert a * -b - b * a == -2 * a * b;
  }

  /** The line ends at `p1`. */
  lemma {:induction false} BresenhamEnds(p0: Point, p1: Point)
    ensures Last(BresenhamLine(p0, p1)) == p1
  {
    StartError(p0, p1);
    LineEndsAtTarget(p0, p1, Steps(p0, p1), Abs(p1.x - p0.x), -Abs(p1.y - p0.y), Abs(p1.x - p0.x) + -Abs(p1.y - p0.y));
  }

  /** The line visits `p1` only as its last point, never leaves the
      bounding box of the two endpoints, and each point touches the one
      before. */
  lemma {:induction false} BresenhamShape(p0: Point, p1: Point)
    ensures InBox(BresenhamLine(p0, p1), p0, p1) && OnlyLast(BresenhamLine(p0, p1), p1)
    ensures Connected(BresenhamLine(p0, p1))
  {
    LineShape(p0, p1, Steps(p0, p1), Abs(p1.x - p0.x), -Abs(p1.y - p0.y), Abs(p1.x - p0.x) + -Abs(p1.y - p0.y));
  }

  predicate AllInGrid(ps: seq<Point>, width: int, height: int) {
    forall i :: 0 <= i < |ps| ==> InGrid(ps[i], width, height)
  }

  /** The walk from a point of the grid towards another stays in the grid. */
  lemma LineInGrid(p: Point, p1: Point, s: Point, dx: int, dy: int, error: int, width: int, height: int)
    requires Toward(p.x, p1.x, s.x) && Toward(p.y, p1.y, s.y) && dy <= 0 <= dx
    requires InGrid(p, width, height) && InGrid(p1, width, height)
    ensures AllInGrid(Line(p, p1, s, dx, dy, error), width, height)
  {
    LineShape(p, p1, s, dx, dy, error);
  }

  /** The buffer after plotting the points `ps` in order, all in `color`. */
  function Paint(g: seq<Px>, width: int, height: int, ps: seq<Point>, color: Px): (r: seq<Px>)
    requires |g| == width * height && AllInGrid(ps, width, height)
    ensures |r| == |g|
    decreases |ps|
  {
    if ps == [] then g
    else
      assert InGrid(ps[0], width, height);
      IndexInRange(width, height, ps[0].x, ps[0].y);
      Paint(g[Index(width, ps[0].x, ps[0].y) := color], width, height, ps[1..], color)
  }

  /** Some point of `ps` has offset `i`. */
  predicate Covers(ps: seq<Point>, width: int, i: int) {
    exists k :: 0 <= k < |ps| && Index(width, ps[k].x, ps[k].y) == i
  }

  /** Painting sets exactly the offsets of the points to `color` and keeps
      every other pixel. */
  lemma {:induction false} PaintSpec(g: seq<Px>, width: int, height: int, ps: seq<Point>, color: Px, i: int)
    requires |g| == width * height && AllInGrid(ps, width, height) && 0 <= i < |g|
    ensures Paint(g, width, height, ps, color)[i] == if Covers(ps, width, i) then color else g[i]
    decreases |ps|
  {
    if ps != [] {
      assert InGrid(ps[0], width, height);
      IndexInRange(width, height, ps[0].x, ps[0].y);
      var g' := g[Index(width, ps[0].x, ps[0].y) := color];
      PaintSpec(g', width, height, ps[1..], color, i);
      if Covers(ps[1..], width, i) {
        var k :| 0 <= k < |ps[1..]| && Index(width, ps[1..][k].x, ps[1..][k].y) == i;
        assert ps[k + 1] == ps[1..][k];
      } else if Covers(ps, width, i) {
        var k :| 0 <= k < |ps| && Index(width, ps[k].x, ps[k].y) == i;
        assert k == 0;
      }
    }
  }

  /** A line between two points of the grid stays in the grid, and touches
      exactly the pixels of its points: those are `color`, every other
      pixel keeps its value. */
  lemma {:induction false} LinePixels(g: seq<Px>, width: int, height: int, p0: Point, p1: Point, color: Px, x: int, y: int)
    requires |g| == width * height && InGrid(p0, width, height) && InGrid(p1, width, height)
    requires 0 <= x < width && 0 <= y < height
    ensures AllInGrid(BresenhamLine(p0, p1), width, height)
    ensures 0 <= Index(width, x, y) < |g|
    ensures Paint(g, width, height, BresenhamLine(p0, p1), color)[Index(width, x, y)] ==
              if Point(x, y) in BresenhamLine(p0, p1) then color else g[Index(width, x, y)]
  {
    var ps := BresenhamLine(p0, p1);
    LineStart(p0, p1, width, height);
    IndexInRange(width, height, x, y);
    var i := Index(width, x, y);
    PaintSpec(g, width, height, ps, color, i);
    if Covers(ps, width, i) {
      var k :| 0 <= k < |ps| && Index(width, ps[k].x, ps[k].y) == i;
      assert InGrid(ps[k], width, height);
      IndexCoords(width, ps[k].x, ps[k].y);
      IndexCoords(width, x, y);
      assert ps[k] == Point(x, y);
    }
  }

  /** `plot`: stores `color` at offset `p.y * width + p.x` and nowhere else.
      The source checks nothing; the offset must be inside the buffer. */
  method Plot(pixbuf: array<Px>, width: int, color: Px, p: Point)
    requires 0 <= Index(width, p.x, p.y) < pixbuf.Length
    modifies pixbuf
    ensures pixbuf[..] == old(pixbuf[..])[Index(width, p.x, p.y) := color]
  {
    pixbuf[p.y * width + p.x] := color;
  }

  /** The loop's starting state: the walk from `p0` is the whole line,
      and it stays in the grid. */
  lemma LineStart(p0: Point, p1: Point, width: int, height: int)
    requires InGrid(p0, width, height) && InGrid(p1, width, height)
    ensures AllInGrid(BresenhamLine(p0, p1), width, height)
  {
    LineInGrid(p0, p1, Steps(p0, p1), Abs(p1.x - p0.x), -Abs(p1.y - p0.y), Abs(p1.x - p0.x) + -Abs(p1.y - p0.y),
               width, height);
  }

  /** The loop's last pass: plotting the current point completes the
      painting. */
  lemma PaintLast(b: seq<Px>, width: int, height: int, q: Point, p1: Point, s: Point, dx: int, dy: int, err: int,
                  color: Px, final: seq<Px>)
    requires Toward(q.x, p1.x, s.x) && Toward(q.y, p1.y, s.y) && dy <= 0 <= dx
    requires |b| == width * height && AllInGrid(Line(q, p1, s, dx, dy, err), width, height)
    requires Paint(b, width, height, Line(q, p1, s, dx, dy, err), color) == final
    requires q == p1 || (2 * err >= dy && q.x == p1.x) || (2 * err <= dx && q.y == p1.y)
    ensures InGrid(q, width, height) && 0 <= Index(width, q.x, q.y) < |b|
    ensures b[Index(width, q.x, q.y) := color] == final
  {
    assert Step(q, p1, s, dx, dy, err) == Stop;
    var line := Line(q, p1, s, dx, dy, err);
    assert line == [q] && InGrid(line[0], width, height);
    IndexInRange(width, height, q.x, q.y);
  }

  /** A pass that goes on: plotting the current point leaves the painting
      of the rest of the walk to do. */
  lemma PaintNext(b: seq<Px>, width: int, height: int, q: Point, p1: Point, s: Point, dx: int, dy: int, err: int,
                  color: Px, final: seq<Px>, p: Point, error: int)
    requires Toward(q.x, p1.x, s.x) && Toward(q.y, p1.y, s.y) && dy <= 0 <= dx
    requires |b| == width * height && AllInGrid(Line(q, p1, s, dx, dy, err), width, height)
    requires Paint(b, width, height, Line(q, p1, s, dx, dy, err), color) == final
    requires q != p1 && !(2 * err >= dy && q.x == p1.x) && !(2 * err <= dx && q.y == p1.y)
    requires p == Point(if 2 * err >= dy then q.x + s.x else q.x, if 2 * err <= dx then q.y + s.y else q.y)
    requires error == err + (if 2 * err >= dy then dy else 0) + (if 2 * err <= dx then dx else 0)
    ensures InGrid(q, width, height) && 0 <= Index(width, q.x, q.y) < |b|
    ensures Toward(p.x, p1.x, s.x) && Toward(p.y, p1.y, s.y) && Dist(p, p1) < Dist(q, p1)
    ensures AllInGrid(Line(p, p1, s, dx, dy, error), width, height)
    ensures Paint(b[Index(width, q.x, q.y) := color], width, height, Line(p, p1, s, dx, dy, error), color) == final
  {
    StepGo(q, p1, s, dx, dy, err);
    var line := Line(q, p1, s, dx, dy, err);
    var rest := Line(p, p1, s, dx, dy, error);
    assert line == [q] + rest && InGrid(line[0], width, height);
    assert line[1..] == rest;
    IndexInRange(width, height, q.x, q.y);
  }

  /** `plotLine` between two points inside the bitmap: the buffer ends up
      painted with exactly the points of the Bresenham line. */
  method PlotLine(pixbuf: array<Px>, width: int, height: int, color: Px, p0: Point, p1: Point)
    requires pixbuf.Length == width * height
    requires InGrid(p0, width, height) && InGrid(p1, width, height)
    modifies pixbuf
    ensures AllInGrid(BresenhamLine(p0, p1), width, height)
    ensures pixbuf[..] == Paint(old(pixbuf[..]), width, height, BresenhamLine(p0, p1), color)
  {
    var dx := Abs(p1.x - p0.x);
    var sx := Dir(p0.x, p1.x);
    var dy := -Abs(p1.y - p0.y);
    var sy := Dir(p0.y, p1.y);
    ghost var s := Steps(p0, p1);
    var error := dx + dy;
    var p := p0;
    assert BresenhamLine(p0, p1) == Line(p0, p1, s, dx, dy, error);
    LineStart(p0, p1, width, height);
    ghost var final := Paint(pixbuf[..], width, height, BresenhamLine(p0, p1), color);
    while true
      invariant Toward(p.x, p1.x, sx) && Toward(p.y, p1.y, sy)
      invariant AllInGrid(Line(p, p1, s, dx, dy, error), width, height)
      invariant Paint(pixbuf[..], width, height, Line(p, p1, s, dx, dy, error), color) == final
      decreases Dist(p, p1)
    {
      ghost var q, err, before := p, error, pixbuf[..];
      assert InGrid(Line(p, p1, s, dx, dy, error)[0], width, height);
      IndexInRange(width, height, p.x, p.y);
      Plot(pixbuf, width, color, p);
      if p.x == p1.x && p.y == p1.y {
        PaintLast(before, width, height, q, p1, s, dx, dy, err, color, final);
        break;
      }
      var e2 := 2 * error;
      if e2 >= dy {
        if p.x == p1.x {
          PaintLast(before, width, height, q, p1, s, dx, dy, err, color, final);
          break;
        }
        error := error + dy;
        p := p.(x := p.x + sx);
      }
      if e2 <= dx {
        if p.y == p1.y {
          PaintLast(before, width, height, q, p1, s, dx, dy, err, color, final);
          break;
        }
        error := error + dx;
        p := p.(y := p.y + sy);
      }
      PaintNext(before, width, height, q, p1, s, dx, dy, err, color, final, p, error);
    }
  }
}
