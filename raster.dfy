/**
 * The rasterisers of `src/main.rs`: Bresenham's line (`_line_math`) over
 * integers and the scanline triangle fill (`_triangle_math`) over exact
 * reals.  Both append SDL points to a vector the caller owns.
 */
module Raster {
  import opened Common
  import opened Geometry

  /** SDL's `Point`: a pixel position. */
  datatype Point = Point(x: int, y: int)

  // ---------------------------------------------------------------------
  // Bresenham's line
  // ---------------------------------------------------------------------

  /** The line is steep when it rises more than it runs; it is then drawn along `y`. */
  predicate Steep(p0: Vector2D<int>, p1: Vector2D<int>)
  {
    Abs(p0.x - p1.x) < Abs(p0.y - p1.y)
  }

  /** A point with its coordinates exchanged when `steep` holds. */
  function Orient(p: Vector2D<int>, steep: bool): Vector2D<int>
  {
    if steep then Vector2D(p.y, p.x) else p
  }

  /** The driving coordinate: `y` on a steep line, `x` otherwise. */
  function Drive(p: Vector2D<int>, steep: bool): int
  {
    if steep then p.y else p.x
  }

  /** The coordinate that follows the error term. */
  function Other(p: Vector2D<int>, steep: bool): int
  {
    if steep then p.x else p.y
  }

  /** The start of the line after the swaps: the endpoint with the smaller driving coordinate. */
  function LineStart(p0: Vector2D<int>, p1: Vector2D<int>): Vector2D<int>
  {
    var s := Steep(p0, p1);
    if Orient(p0, s).x > Orient(p1, s).x then Orient(p1, s) else Orient(p0, s)
  }

  /** The end of the line after the swaps. */
  function LineEnd(p0: Vector2D<int>, p1: Vector2D<int>): Vector2D<int>
  {
    var s := Steep(p0, p1);
    if Orient(p0, s).x > Orient(p1, s).x then Orient(p0, s) else Orient(p1, s)
  }

  /** `dx`: the run of the line along its driving coordinate. */
  function Run(p0: Vector2D<int>, p1: Vector2D<int>): nat
  {
    LineEnd(p0, p1).x - LineStart(p0, p1).x
  }

  /**
   * How far the other coordinate has moved after `t` steps: the integer
   * nearest to `t * rise / run`, rounding halves down.
   */
  function Climb(run: nat, rise: nat, t: nat): nat
  {
    if run == 0 then 0 else (2 * rise * t + run - 1) / (2 * run)
  }

  /**
   * The point pushed at step `t` of a walk from `s` to `e` in oriented
   * coordinates, given back in the caller's orientation.
   */
  function WalkPoint(s: Vector2D<int>, e: Vector2D<int>, steep: bool, t: nat): Point
    requires s.x <= e.x
  {
    var k := Climb(e.x - s.x, Abs(e.y - s.y), t);
    var other := if e.y > s.y then s.y + k else s.y - k;
    if steep then Point(other, s.x + t) else Point(s.x + t, other)
  }

  /** The whole walk from `s` to `e`, one point per driving step. */
  function Walk(s: Vector2D<int>, e: Vector2D<int>, steep: bool): seq<Point>
    requires s.x <= e.x
  {
    seq(e.x - s.x + 1, t requires 0 <= t <= e.x - s.x => WalkPoint(s, e, steep, t))
  }

  /** Every point `_line_math` pushes, in order. */
  function LinePoints(p0: Vector2D<int>, p1: Vector2D<int>): seq<Point>
  {
    Walk(LineStart(p0, p1), LineEnd(p0, p1), Steep(p0, p1))
  }

  /** The point `_line_math` pushes at step `t`. */
  function LinePoint(p0: Vector2D<int>, p1: Vector2D<int>, t: nat): Point
  {
    WalkPoint(LineStart(p0, p1), LineEnd(p0, p1), Steep(p0, p1), t)
  }

  /** The rise of a line never exceeds its run once the coordinates are oriented. */
  lemma RiseWithinRun(p0: Vector2D<int>, p1: Vector2D<int>)
    ensures Abs(LineEnd(p0, p1).y - LineStart(p0, p1).y) <= Run(p0, p1)
  {
  }

  /** The error term `2*rise*t - 2*run*Climb(t)` lies in `(-run, run]`. */
  lemma ClimbBounds(run: nat, rise: nat, t: nat)
    requires run > 0
    ensures -(run as int) < 2 * rise * t - 2 * run * Climb(run, rise, t) <= run
  {
    var n := 2 * rise * t + run - 1;
    var q := n / (2 * run);
    assert n == 2 * run * q + n % (2 * run);
  }

  /** The error term determines `Climb`. */
  lemma ClimbUnique(run: nat, rise: nat, t: nat, k: int)
    requires run > 0
    requires -(run as int) < 2 * rise * t - 2 * run * k <= run
    ensures Climb(run, rise, t) == k
  {
    DivUnique(2 * rise * t + run - 1, 2 * run, k);
  }

  /**
   * One step of the loop: adding `2*rise` to the error term either keeps
   * `Climb` or, when the sum passes `run`, raises it by one and takes
   * `2*run` off the error term.
   */
  lemma ErrorStep(run: nat, rise: nat, t: nat, k: nat, err: int)
    requires rise <= run
    requires k == Climb(run, rise, t)
    requires err == 2 * rise * t - 2 * run * k
    ensures err + 2 * rise > run ==>
      Climb(run, rise, t + 1) == k + 1 && err + 2 * rise - 2 * run == 2 * rise * (t + 1) - 2 * run * (k + 1)
    ensures err + 2 * rise <= run ==>
      Climb(run, rise, t + 1) == k && err + 2 * rise == 2 * rise * (t + 1) - 2 * run * k
    ensures run > 0 ==> -(run as int) < err <= run
  {
    assert 2 * rise * (t + 1) == 2 * rise * t + 2 * rise;
    if run > 0 {
      ClimbBounds(run, rise, t);
      if err + 2 * rise > run {
        assert 2 * run * (k + 1) == 2 * run * k + 2 * run;
        ClimbUnique(run, rise, t + 1, k + 1);
      } else {
        ClimbUnique(run, rise, t + 1, k);
      }
    }
  }

  /**
   * `_line_math`: orient the endpoints, then step the driving coordinate
   * from start to end, moving the other one whenever the accumulated error
   * passes `dx`.
   */
  method LineMath(p0: Vector2D<int>, p1: Vector2D<int>, points: seq<Point>) returns (out: seq<Point>)
    ensures out == points + LinePoints(p0, p1)
  {
    var a0, a1 := p0, p1;
    var steep := false;
    if Abs(a0.x - a1.x) < Abs(a0.y - a1.y) {
      a0, a1 := Vector2D(a0.y, a0.x), Vector2D(a1.y, a1.x);
      steep := true;
    }
    if a0.x > a1.x {
      a0, a1 := a1, a0;
    }
    assert a0 == LineStart(p0, p1) && a1 == LineEnd(p0, p1) && steep == Steep(p0, p1);
    RiseWithinRun(p0, p1);
    out := StepLine(a0, a1, steep, points);
  }

  /**
   * The stepping loop of `_line_math` on oriented endpoints `a0`, `a1`
   * with `a0.x <= a1.x` and a rise no larger than the run.
   */
  method StepLine(a0: Vector2D<int>, a1: Vector2D<int>, steep: bool, points: seq<Point>)
    returns (out: seq<Point>)
    requires a0.x <= a1.x && Abs(a1.y - a0.y) <= a1.x - a0.x
    ensures out == points + Walk(a0, a1, steep)
  {
    var dx := a1.x - a0.x;
    var dy := a1.y - a0.y;
    var derror := Abs(dy) * 2;
    var error := 0;
    var y := a0.y;
    var x := a0.x;
    ghost var walk := Walk(a0, a1, steep);
    ghost var t: nat, k: nat := 0, 0;
    out := points;
    while x <= a1.x
      invariant x == a0.x + t && t <= dx + 1
      invariant out == points + walk[..t]
      invariant k == Climb(dx, Abs(dy), t)
      invariant y == if a1.y > a0.y then a0.y + k else a0.y - k
      invariant error == 2 * Abs(dy) * t - 2 * dx * k
      decreases a1.x + 1 - x
    {
      assert walk[t] == WalkPoint(a0, a1, steep, t) == if steep then Point(y, x) else Point(x, y);
      if steep {
        out := out + [Point(y, x)];
      } else {
        out := out + [Point(x, y)];
      }
      assert walk[..t + 1] == walk[..t] + [walk[t]];
      ErrorStep(dx, Abs(dy), t, k, error);
      x := x + 1;
      error := error + derror;
      t := t + 1;
      if error > dx {
        y := y + (if a1.y > a0.y then 1 else -1);
        error := error - dx * 2;
        k := k + 1;
      }
    }
    assert walk[..t] == walk;
  }

  /** `_line_math` pushes one point per unit of the longer axis, plus one. */
  lemma LineLength(p0: Vector2D<int>, p1: Vector2D<int>)
    ensures |LinePoints(p0, p1)| == Max(Abs(p0.x - p1.x), Abs(p0.y - p1.y)) + 1
  {
  }

  /** An oriented point given back in the caller's orientation, as `_line_math` pushes it. */
  function Unorient(p: Vector2D<int>, steep: bool): Point
  {
    if steep then Point(p.y, p.x) else Point(p.x, p.y)
  }

  /** A walk starts at `s` and stops exactly at `e`. */
  lemma WalkEnds(s: Vector2D<int>, e: Vector2D<int>, steep: bool)
    requires s.x <= e.x && Abs(e.y - s.y) <= e.x - s.x
    ensures WalkPoint(s, e, steep, 0) == Unorient(s, steep)
    ensures WalkPoint(s, e, steep, e.x - s.x) == Unorient(e, steep)
  {
    var run, rise := e.x - s.x, Abs(e.y - s.y);
    if run > 0 {
      ClimbUnique(run, rise, 0, 0);
      assert 2 * rise * run - 2 * run * rise == 0;
      ClimbUnique(run, rise, run, rise);
    }
  }

  /**
   * The first point is the endpoint with the smaller driving coordinate and
   * the last point is the other endpoint, both in the caller's orientation.
   */
  lemma LineEnds(p0: Vector2D<int>, p1: Vector2D<int>)
    ensures var s := Steep(p0, p1);
      var first := if Drive(p0, s) > Drive(p1, s) then p1 else p0;
      var last := if Drive(p0, s) > Drive(p1, s) then p0 else p1;
      LinePoints(p0, p1)[0] == Point(first.x, first.y)
      && LinePoints(p0, p1)[Run(p0, p1)] == Point(last.x, last.y)
  {
    RiseWithinRun(p0, p1);
    WalkEnds(LineStart(p0, p1), LineEnd(p0, p1), Steep(p0, p1));
  }

  /**
   * One step of a walk: the driving coordinate grows by one and the other
   * moves by 0 or by 1 towards `e`, staying between `s.y` and `e.y`.
   */
  lemma WalkStep(s: Vector2D<int>, e: Vector2D<int>, t: nat)
    requires s.x <= e.x && Abs(e.y - s.y) <= e.x - s.x && t < e.x - s.x
    ensures var here, next := WalkPoint(s, e, false, t), WalkPoint(s, e, false, t + 1);
      next.x == here.x + 1
      && (next.y == here.y || next.y == here.y + (if e.y > s.y then 1 else -1))
      && Min(s.y, e.y) <= next.y <= Max(s.y, e.y)
  {
    var run, rise := e.x - s.x, Abs(e.y - s.y);
    var k := Climb(run, rise, t);
    ErrorStep(run, rise, t, k, 2 * rise * t - 2 * run * k);
    ClimbAtMostRise(run, rise, t + 1);
  }

  /**
   * Between consecutive points the driving coordinate grows by one and the
   * other coordinate moves by 0 or by 1 towards the far endpoint, never
   * leaving the range between the two endpoints.
   */
  lemma LineSteps(p0: Vector2D<int>, p1: Vector2D<int>, t: nat)
    requires t < Run(p0, p1)
    ensures var steep, s, e := Steep(p0, p1), LineStart(p0, p1), LineEnd(p0, p1);
      var here, next := LinePoint(p0, p1, t), LinePoint(p0, p1, t + 1);
      var hv, nv := Vector2D(here.x, here.y), Vector2D(next.x, next.y);
      Drive(nv, steep) == Drive(hv, steep) + 1
      && (Other(nv, steep) == Other(hv, steep)
          || Other(nv, steep) == Other(hv, steep) + (if e.y > s.y then 1 else -1))
      && Min(s.y, e.y) <= Other(nv, steep) <= Max(s.y, e.y)
  {
    RiseWithinRun(p0, p1);
    WalkStep(LineStart(p0, p1), LineEnd(p0, p1), t);
  }

  /** Within the run, `Climb` never passes the rise. */
  lemma ClimbAtMostRise(run: nat, rise: nat, t: nat)
    requires rise <= run && t <= run
    ensures Climb(run, rise, t) <= rise
  {
    if run > 0 {
      ClimbBounds(run, rise, t);
      MulLeMono(t, run, 2 * rise);
      if Climb(run, rise, t) > rise {
        MulLeMono(rise + 1, Climb(run, rise, t), 2 * run);
      }
    }
  }

  /**
   * A walk stays within half a pixel of the exact segment from `s` to `e`:
   * `|2*run*(other - s.y) - 2*(e.y - s.y)*t| <= run`.
   */
  lemma WalkAccuracy(s: Vector2D<int>, e: Vector2D<int>, steep: bool, t: nat)
    requires s.x <= e.x && t <= e.x - s.x
    ensures var k := Climb(e.x - s.x, Abs(e.y - s.y), t);
      var other := if e.y > s.y then s.y + k else s.y - k;
      Abs(2 * (e.x - s.x) * (other - s.y) - 2 * (e.y - s.y) * t) <= e.x - s.x
  {
    var run, rise := e.x - s.x, Abs(e.y - s.y);
    var k: int := Climb(run, rise, t);
    if run > 0 {
      ClimbBounds(run, rise, t);
      if e.y > s.y {
        assert 2 * run * k - 2 * (e.y - s.y) * t == -(2 * rise * t - 2 * run * k);
      } else {
        assert 2 * run * (-k) - 2 * (e.y - s.y) * t == 2 * rise * t - 2 * run * k;
      }
    }
  }

  /**
   * Every pushed point lies within half a pixel of the exact line through
   * the endpoints, measured along the other coordinate.
   */
  lemma LineAccuracy(p0: Vector2D<int>, p1: Vector2D<int>, t: nat)
    requires t <= Run(p0, p1)
    ensures var steep, s, e := Steep(p0, p1), LineStart(p0, p1), LineEnd(p0, p1);
      var here := LinePoint(p0, p1, t);
      var other := Other(Vector2D(here.x, here.y), steep);
      Abs(2 * Run(p0, p1) * (other - s.y) - 2 * (e.y - s.y) * t) <= Run(p0, p1)
  {
    WalkAccuracy(LineStart(p0, p1), LineEnd(p0, p1), Steep(p0, p1), t);
  }

  // ---------------------------------------------------------------------
  // Scanline triangle
  // ---------------------------------------------------------------------

  /** `as i32` and `cast::<i32>()` on an in-range `f32`: truncation toward zero. */
  function Trunc(r: real): (n: int)
    ensures Abs(n) as real <= (if r >= 0.0 then r else -r) < Abs(n) as real + 1.0
    ensures n == 0 || (n > 0 <==> r > 0.0)
  {
    if r >= 0.0 then r.Floor else -((-r).Floor)
  }

  function TruncPoint(v: Vector2D<real>): Vector2D<int>
  {
    Vector2D(Trunc(v.x), Trunc(v.y))
  }

  /** All three vertices on one row: `_triangle_math` draws nothing. */
  predicate Flat(p: seq<Vector2D<real>>)
    requires |p| == 3
  {
    p[0].y == p[1].y && p[0].y == p[2].y
  }

  /** `if p[i].y > p[j].y { p.swap(i, j) }` */
  function CompareSwap(p: seq<Vector2D<real>>, i: nat, j: nat): seq<Vector2D<real>>
    requires i < j < |p|
  {
    if p[i].y > p[j].y then p[i := p[j]][j := p[i]] else p
  }

  /** A compare-and-swap orders its two entries, exchanging them or neither, and touches nothing else. */
  lemma CompareSwapOrders(p: seq<Vector2D<real>>, i: nat, j: nat)
    requires i < j < |p|
    ensures var r := CompareSwap(p, i, j);
      |r| == |p| && r[i].y <= r[j].y && multiset(r) == multiset(p)
      && ((r[i] == p[i] && r[j] == p[j]) || (r[i] == p[j] && r[j] == p[i]))
      && forall k :: 0 <= k < |p| && k != i && k != j ==> r[k] == p[k]
  {
  }

  /** The vertices after the three compare-and-swaps of `_triangle_math`. */
  function SortByY(p: seq<Vector2D<real>>): seq<Vector2D<real>>
    requires |p| == 3
  {
    CompareSwap(CompareSwap(CompareSwap(p, 0, 1), 0, 2), 1, 2)
  }

  /** Vertices ordered by `y` that do not all lie on one row. */
  predicate Upright(q: seq<Vector2D<real>>)
  {
    |q| == 3 && q[0].y <= q[1].y <= q[2].y && q[0].y < q[2].y
  }

  /** The three compare-and-swaps order the vertices by `y` and lose none of them. */
  lemma SortByYSorts(p: seq<Vector2D<real>>)
    requires |p| == 3
    ensures var q := SortByY(p);
      |q| == 3 && q[0].y <= q[1].y <= q[2].y && multiset(q) == multiset(p)
    ensures !Flat(p) ==> Upright(SortByY(p))
  {
    var q := CompareSwap(p, 0, 1);
    CompareSwapOrders(p, 0, 1);
    var r := CompareSwap(q, 0, 2);
    CompareSwapOrders(q, 0, 2);
    var u := CompareSwap(r, 1, 2);
    CompareSwapOrders(r, 1, 2);
    assert u[0] == r[0] && r[1] == q[1];
    if !Flat(p) {
      assert !(u[0].y == u[1].y && u[0].y == u[2].y) by {
        assert u[0] in multiset(p) && u[1] in multiset(p) && u[2] in multiset(p);
        assert p[0] in multiset(u) && p[1] in multiset(u) && p[2] in multiset(u);
      }
    }
  }

  /** `total_height as i32`: the number of rows drawn. */
  function RowCount(q: seq<Vector2D<real>>): int
    requires Upright(q)
  {
    Trunc(q[2].y - q[0].y)
  }

  /** Row `i` lies in the upper part, from `q[1]` to `q[2]`. */
  predicate SecondHalf(q: seq<Vector2D<real>>, i: int)
    requires |q| == 3
  {
    i as real > q[1].y - q[0].y || q[1].y == q[0].y
  }

  /** The height of the part of the triangle that row `i` crosses. */
  function SegmentHeight(q: seq<Vector2D<real>>, i: int): real
    requires |q| == 3
  {
    if SecondHalf(q, i) then q[2].y - q[1].y else q[1].y - q[0].y
  }

  /** How far row `i` is up the long side `q[0]`-`q[2]`. */
  function Alpha(q: seq<Vector2D<real>>, i: int): real
    requires Upright(q)
  {
    i as real / (q[2].y - q[0].y)
  }

  /**
   * How far row `i` is up the short side it crosses.  The division is
   * defined for every drawn row: `SegmentHeight` is positive there.
   */
  function Beta(q: seq<Vector2D<real>>, i: int): real
    requires Upright(q) && 0 <= i < RowCount(q)
  {
    assert SegmentHeight(q, i) > 0.0;
    (i as real - (if SecondHalf(q, i) then q[1].y - q[0].y else 0.0)) / SegmentHeight(q, i)
  }

  /** `a`: where row `i` meets the long side, truncated. */
  function LongEnd(q: seq<Vector2D<real>>, i: int): Vector2D<int>
    requires Upright(q)
  {
    TruncPoint(Add2D(q[0], Scale2D(Sub2D(q[2], q[0]), Alpha(q, i))))
  }

  /** `b`: where row `i` meets the short side it crosses, truncated. */
  function ShortEnd(q: seq<Vector2D<real>>, i: int): Vector2D<int>
    requires Upright(q) && 0 <= i < RowCount(q)
  {
    TruncPoint(if SecondHalf(q, i) then Add2D(q[1], Scale2D(Sub2D(q[2], q[1]), Beta(q, i)))
               else Add2D(q[0], Scale2D(Sub2D(q[1], q[0]), Beta(q, i))))
  }

  /** The inclusive x-range of row `i`: the two ends, put in order. */
  function Span(q: seq<Vector2D<real>>, i: int): (r: (int, int))
    requires Upright(q) && 0 <= i < RowCount(q)
    ensures r.0 <= r.1
    ensures {r.0, r.1} == {LongEnd(q, i).x, ShortEnd(q, i).x}
  {
    var a, b := LongEnd(q, i), ShortEnd(q, i);
    if a.x > b.x then (b.x, a.x) else (a.x, b.x)
  }

  /** The pixels `lo..=hi` of row `y`, left to right. */
  function SpanPoints(lo: int, hi: int, y: int): (r: seq<Point>)
    ensures |r| == if lo <= hi then hi - lo + 1 else 0
  {
    if lo > hi then [] else seq(hi - lo + 1, k requires 0 <= k <= hi - lo => Point(lo + k, y))
  }

  /** The points pushed for row `i`. */
  function Row(q: seq<Vector2D<real>>, i: int): seq<Point>
    requires Upright(q) && 0 <= i < RowCount(q)
  {
    SpanPoints(Span(q, i).0, Span(q, i).1, Trunc(q[0].y) + i)
  }

  /** The points pushed for rows `0..n`, in row order. */
  function Rows(q: seq<Vector2D<real>>, n: nat): seq<Point>
    requires Upright(q) && n <= RowCount(q)
  {
    if n == 0 then [] else Rows(q, n - 1) + Row(q, n - 1)
  }

  /** Every point `_triangle_math` pushes, in order. */
  function TrianglePoints(p: seq<Vector2D<real>>): seq<Point>
    requires |p| == 3
  {
    if Flat(p) then []
    else
      SortByYSorts(p);
      var q := SortByY(p);
      if RowCount(q) <= 0 then [] else Rows(q, RowCount(q))
  }

  /**
   * `_triangle_math`: reject a flat triangle, sort the vertices by `y`,
   * then push every pixel of each row's span.
   */
  method TriangleMath(p: seq<Vector2D<real>>, points: seq<Point>) returns (out: seq<Point>)
    requires |p| == 3
    ensures out == points + TrianglePoints(p)
  {
    if p[0].y == p[1].y && p[0].y == p[2].y {
      return points;
    }
    var q := p;
    if q[0].y > q[1].y { q := q[0 := q[1]][1 := q[0]]; }
    assert q == CompareSwap(p, 0, 1);
    if q[0].y > q[2].y { q := q[0 := q[2]][2 := q[0]]; }
    assert q == CompareSwap(CompareSwap(p, 0, 1), 0, 2);
    if q[1].y > q[2].y { q := q[1 := q[2]][2 := q[1]]; }
    assert q == SortByY(p);
    SortByYSorts(p);
    out := FillRows(q, points);
  }

  /** The row loop of `_triangle_math` on sorted vertices. */
  method FillRows(q: seq<Vector2D<real>>, points: seq<Point>) returns (out: seq<Point>)
    requires Upright(q)
    ensures out == points + Rows(q, if RowCount(q) <= 0 then 0 else RowCount(q))
  {
    var totalHeight := q[2].y - q[0].y;
    out := points;
    var rows := Trunc(totalHeight);
    for i := 0 to if rows < 0 then 0 else rows
      invariant out == points + Rows(q, i)
    {
      var lo, hi := RowEnds(q, totalHeight, i);
      out := PushSpan(lo, hi, Trunc(q[0].y) + i, out);
    }
  }

  /**
   * The body of the row loop of `_triangle_math` up to the inner loop:
   * interpolate both ends of row `i`, truncate them and put them in order.
   */
  method RowEnds(q: seq<Vector2D<real>>, totalHeight: real, i: int) returns (lo: int, hi: int)
    requires Upright(q) && 0 <= i < RowCount(q) && totalHeight == q[2].y - q[0].y
    ensures (lo, hi) == Span(q, i)
  {
    var secondHalf := i as real > q[1].y - q[0].y || q[1].y == q[0].y;
    var segmentHeight := if secondHalf then q[2].y - q[1].y else q[1].y - q[0].y;
    var alpha := i as real / totalHeight;
    assert segmentHeight == SegmentHeight(q, i) > 0.0;
    var beta := (i as real - (if secondHalf then q[1].y - q[0].y else 0.0)) / segmentHeight;
    assert alpha == Alpha(q, i);
    assert beta == Beta(q, i);
    var a := TruncPoint(Add2D(q[0], Scale2D(Sub2D(q[2], q[0]), alpha)));
    var b := TruncPoint(if secondHalf then Add2D(q[1], Scale2D(Sub2D(q[2], q[1]), beta))
                        else Add2D(q[0], Scale2D(Sub2D(q[1], q[0]), beta)));
    assert a == LongEnd(q, i);
    assert b == ShortEnd(q, i);
    if a.x > b.x {
      a, b := b, a;
    }
    return a.x, b.x;
  }

  /** The inner loop of `_triangle_math`: push `(j, y)` for `j` in `lo..=hi`. */
  method PushSpan(lo: int, hi: int, y: int, points: seq<Point>) returns (out: seq<Point>)
    ensures out == points + SpanPoints(lo, hi, y)
  {
    out := points;
    if lo > hi {
      return;
    }
    ghost var span := SpanPoints(lo, hi, y);
    for j := lo to hi + 1
      invariant out == points + span[..j - lo]
    {
      assert span[..j - lo + 1] == span[..j - lo] + [Point(j, y)];
      out := out + [Point(j, y)];
    }
    assert span[..hi + 1 - lo] == span;
  }

  /**
   * On every drawn row the segment height is positive, so neither division
   * is by zero, and both interpolation parameters lie in `[0, 1]`.
   */
  lemma Interpolation(q: seq<Vector2D<real>>, i: int)
    requires Upright(q) && 0 <= i < RowCount(q)
    ensures SegmentHeight(q, i) > 0.0
    ensures 0.0 <= Alpha(q, i) < 1.0
    ensures 0.0 <= Beta(q, i) <= 1.0
  {
    var total := q[2].y - q[0].y;
    assert (i as real) < total;
    UnitQuotient(i as real, total);
    var below := q[1].y - q[0].y;
    var num := i as real - (if SecondHalf(q, i) then below else 0.0);
    UnitQuotient(num, SegmentHeight(q, i));
  }

  /** A quotient of a part by its whole lies in `[0, 1]`, and below 1 for a proper part. */
  lemma UnitQuotient(num: real, den: real)
    requires den > 0.0 && 0.0 <= num <= den
    ensures 0.0 <= num / den <= 1.0
    ensures num < den ==> num / den < 1.0
  {
  }

  /**
   * A point is pushed exactly when it lies on a drawn row `i`, at
   * `y = trunc(q[0].y) + i`, within that row's span.
   */
  lemma {:induction false} RowsCover(q: seq<Vector2D<real>>, n: nat, pt: Point)
    requires Upright(q) && n <= RowCount(q)
    ensures pt in Rows(q, n) <==>
      exists i :: 0 <= i < n && pt.y == Trunc(q[0].y) + i && Span(q, i).0 <= pt.x <= Span(q, i).1
  {
    if n > 0 {
      RowsCover(q, n - 1, pt);
      var (lo, hi) := Span(q, n - 1);
      if lo <= pt.x <= hi && pt.y == Trunc(q[0].y) + n - 1 {
        assert Row(q, n - 1)[pt.x - lo] == pt;
      }
      assert pt in Row(q, n - 1) <==> lo <= pt.x <= hi && pt.y == Trunc(q[0].y) + n - 1;
    }
  }

  /**
   * `_triangle_math` pushes nothing for a flat triangle; otherwise it pushes
   * exactly the pixels of the spans of the rows `0..trunc(total_height)` of
   * the sorted vertices.
   */
  lemma TriangleCover(p: seq<Vector2D<real>>, pt: Point)
    requires |p| == 3
    ensures Flat(p) ==> TrianglePoints(p) == []
    ensures !Flat(p) ==> Upright(SortByY(p)) && (pt in TrianglePoints(p) <==>
      exists i :: 0 <= i < RowCount(SortByY(p)) && pt.y == Trunc(SortByY(p)[0].y) + i
        && Span(SortByY(p), i).0 <= pt.x <= Span(SortByY(p), i).1)
  {
    SortByYSorts(p);
    if !Flat(p) && RowCount(SortByY(p)) > 0 {
      RowsCover(SortByY(p), RowCount(SortByY(p)), pt);
    }
  }
}
