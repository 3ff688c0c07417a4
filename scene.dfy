/**
 * The frame buffers of `src/scene.rs` and the arithmetic of one pixel of
 * `Scene::triangle`: the clamped bounding box, `barycentric`, `cross`, the
 * perspective renormalisation and the depth-checked write of a fragment.
 * `f32` is a real; `f32 as usize` is modelled by `AsUsize`.
 */
module Scene {
  import opened Common
  import opened Geometry

  /** A `u32` colour. */
  type u32 = c: int | 0 <= c < 0x1_0000_0000

  /** `f32::MAX`; `f32::MIN` is its negation. */
  const F32Max: real := 340282346638528859811704183484516925440.0

  function RMin(a: real, b: real): real { if a <= b then a else b }
  function RMax(a: real, b: real): real { if a >= b then a else b }
  function RAbs(a: real): real { if a < 0.0 then -a else a }

  /** `f32 as usize` on a finite value: truncation toward zero, with negative values giving 0. */
  function AsUsize(r: real): (n: nat)
    ensures r >= 0.0 ==> n as real <= r < n as real + 1.0
    ensures r <= 0.0 ==> n == 0
  {
    if r <= 0.0 then 0 else r.Floor
  }

  // ---------------------------------------------------------------------
  // The buffers
  // ---------------------------------------------------------------------

  /** `scene[x][y] = color` on a copy: the only entry that differs is `[x][y]`. */
  function SetPixel(s: seq<seq<u32>>, x: nat, y: nat, color: u32): (r: seq<seq<u32>>)
    requires x < |s| && y < |s[x]|
    ensures |r| == |s| && forall i :: 0 <= i < |s| ==> |r[i]| == |s[i]|
    ensures forall i, j :: 0 <= i < |s| && 0 <= j < |s[i]| ==>
      r[i][j] == (if i == x && j == y then color else s[i][j])
  {
    var row: seq<u32> := s[x][y := color];
    s[x := row]
  }

  /** `Scene`'s two buffers, without the SDL window, canvas and texture creator. */
  class Scene {
    var scene: seq<seq<u32>>
    var zbuffer: seq<real>
    const width: nat
    const height: nat

    /** `height` rows of `width` colours and one depth per pixel. */
    ghost predicate Valid()
      reads this
    {
      |scene| == height && (forall x :: 0 <= x < height ==> |scene[x]| == width)
      && |zbuffer| == width * height
    }

    /** `Scene::new`: every colour 0 and every depth `f32::MIN`; `depth` is unused. */
    constructor (width: nat, height: nat, depth: nat)
      ensures Valid() && this.width == width && this.height == height
      ensures forall x, y :: 0 <= x < height && 0 <= y < width ==> scene[x][y] == 0
      ensures forall k :: 0 <= k < |zbuffer| ==> zbuffer[k] == -F32Max
    {
      this.width := width;
      this.height := height;
      scene := seq(height, _ => seq(width, _ => 0));
      zbuffer := seq(width * height, _ => -F32Max);
    }

    /** `Scene::set`: the row is indexed by `x` and the column by `y`. */
    method Set(x: nat, y: nat, color: u32)
      requires x < |scene| && y < |scene[x]|
      modifies this
      ensures scene == SetPixel(old(scene), x, y, color)
      ensures zbuffer == old(zbuffer)
      ensures old(Valid()) ==> Valid()
    {
      var row: seq<u32> := scene[x][y := color];
      scene := scene[x := row];
    }

    /**
     * One pixel of the scan in `Scene::triangle`: the depth test, then, for
     * a fragment the shader keeps, the writes of the depth and the colour.
     * `discard` and `color` are what `shader.fragment` returned. `ok` is
     * false when the source panics; the buffers then no longer matter. The
     * buffers keep the shape `new` gave them, and on a square scene no
     * pixel of the clamped box panics.
     */
    method Fragment(p: Vector, bcScreen: Vector, fragDepth: real, discard: bool, color: u32) returns (ok: bool)
      requires |p.vec| == 2 && |bcScreen.vec| == 3
      modifies this
      ensures ok == Commit(old(Buffers(scene, zbuffer)), width, p, bcScreen, fragDepth, discard, color).Ok?
      ensures ok ==> (Buffers(scene, zbuffer)
        == Commit(old(Buffers(scene, zbuffer)), width, p, bcScreen, fragDepth, discard, color).value)
      ensures old(Valid()) ==> Valid()
      ensures (old(Valid()) && width == height && width > 0
        && 0.0 <= p.vec[0] <= (width - 1) as real && 0.0 <= p.vec[1] <= (width - 1) as real) ==> ok
    {
      ghost var before := Buffers(scene, zbuffer);
      if Valid() && width == height && width > 0
        && 0.0 <= p.vec[0] <= (width - 1) as real && 0.0 <= p.vec[1] <= (width - 1) as real
      {
        SquareNeverPanics(before, width, p, bcScreen, fragDepth, discard, color);
      }
      if bcScreen.vec[0] < 0.0 || bcScreen.vec[1] < 0.0 || bcScreen.vec[2] < 0.0 {
        return true;
      }
      var idx := AsUsize(p.vec[0] + p.vec[1] * width as real);
      assert idx == PixelIndex(p, width);
      if idx >= |zbuffer| {
        return false;
      }
      if zbuffer[idx] > fragDepth {
        assert DepthTest(bcScreen, before.zbuffer, idx, fragDepth) == Ok(true);
        return true;
      }
      assert DepthTest(bcScreen, before.zbuffer, idx, fragDepth) == Ok(false);
      if !discard {
        zbuffer := zbuffer[idx := fragDepth];
        var x, y := AsUsize(p.vec[0]), AsUsize(p.vec[1]);
        if x >= |scene| || y >= |scene[x]| {
          return false;
        }
        Set(x, y, color);
      }
      return true;
    }
  }

  // ---------------------------------------------------------------------
  // The depth-checked write, on values
  // ---------------------------------------------------------------------

  datatype Buffers = Buffers(scene: seq<seq<u32>>, zbuffer: seq<real>)

  /** `(p[0] + p[1] * width as f32) as usize`. */
  function PixelIndex(p: Vector, width: nat): nat
    requires |p.vec| == 2
  {
    AsUsize(p.vec[0] + p.vec[1] * width as real)
  }

  /** Some barycentric coordinate is negative: the pixel is outside the triangle. */
  predicate Outside(bc: Vector)
    requires |bc.vec| == 3
  {
    bc.vec[0] < 0.0 || bc.vec[1] < 0.0 || bc.vec[2] < 0.0
  }

  /** The `continue` condition, evaluated left to right: `Ok(true)` skips the pixel. */
  function DepthTest(bc: Vector, zbuffer: seq<real>, idx: nat, depth: real): (r: Outcome<bool>)
    requires |bc.vec| == 3
    ensures r.Panic? <==> !Outside(bc) && idx >= |zbuffer|
    ensures r == Ok(false) <==> !Outside(bc) && idx < |zbuffer| && zbuffer[idx] <= depth
  {
    if Outside(bc) then Ok(true)
    else if idx >= |zbuffer| then Panic
    else Ok(zbuffer[idx] > depth)
  }

  /** The buffers after one pixel of `Scene::triangle`. */
  function Commit(b: Buffers, width: nat, p: Vector, bc: Vector, depth: real, discard: bool, color: u32): Outcome<Buffers>
    requires |p.vec| == 2 && |bc.vec| == 3
  {
    var idx := PixelIndex(p, width);
    match DepthTest(bc, b.zbuffer, idx, depth)
    case Panic => Panic
    case Ok(skip) =>
      if skip || discard then Ok(b)
      else
        var x, y := AsUsize(p.vec[0]), AsUsize(p.vec[1]);
        if x >= |b.scene| || y >= |b.scene[x]| then Panic
        else Ok(Buffers(SetPixel(b.scene, x, y, color), b.zbuffer[idx := depth]))
  }

  /**
   * A pixel outside the triangle, behind the stored depth or discarded by
   * the shader leaves both buffers as they were; one that passes gets the
   * fragment's depth at its index and its colour at `[p0][p1]`, and
   * nothing else changes.
   */
  lemma CommitEffect(b: Buffers, width: nat, p: Vector, bc: Vector, depth: real, discard: bool, color: u32)
    requires |p.vec| == 2 && |bc.vec| == 3
    ensures var idx := PixelIndex(p, width);
      (Outside(bc) || (idx < |b.zbuffer| && b.zbuffer[idx] > depth)
        || (idx < |b.zbuffer| && discard)) ==>
      Commit(b, width, p, bc, depth, discard, color) == Ok(b)
    ensures var idx, x, y := PixelIndex(p, width), AsUsize(p.vec[0]), AsUsize(p.vec[1]);
      var r := Commit(b, width, p, bc, depth, discard, color);
      (!Outside(bc) && idx < |b.zbuffer| && b.zbuffer[idx] <= depth && !discard
        && x < |b.scene| && y < |b.scene[x]|) ==>
      r.Ok? && |r.value.zbuffer| == |b.zbuffer|
      && (forall k :: 0 <= k < |b.zbuffer| ==> r.value.zbuffer[k] == (if k == idx then depth else b.zbuffer[k]))
      && |r.value.scene| == |b.scene|
      && (forall i, j :: 0 <= i < |b.scene| && 0 <= j < |b.scene[i]| ==>
            j < |r.value.scene[i]| && r.value.scene[i][j] == (if i == x && j == y then color else b.scene[i][j]))
  {
  }

  /** A fragment at exactly the stored depth passes the test and is written. */
  lemma EqualDepthPasses(b: Buffers, width: nat, p: Vector, bc: Vector, discard: bool, color: u32)
    requires |p.vec| == 2 && |bc.vec| == 3
    requires !Outside(bc) && !discard && PixelIndex(p, width) < |b.zbuffer|
    requires AsUsize(p.vec[0]) < |b.scene| && AsUsize(p.vec[1]) < |b.scene[AsUsize(p.vec[0])]|
    ensures var r := Commit(b, width, p, bc, b.zbuffer[PixelIndex(p, width)], discard, color);
      r.Ok? && r.value.scene[AsUsize(p.vec[0])][AsUsize(p.vec[1])] == color
  {
  }

  /** The stored depth of a pixel never decreases, and the buffers keep their shape. */
  lemma DepthNeverDecreases(b: Buffers, width: nat, p: Vector, bc: Vector, depth: real, discard: bool, color: u32)
    requires |p.vec| == 2 && |bc.vec| == 3
    ensures var r := Commit(b, width, p, bc, depth, discard, color);
      r.Ok? ==>
        |r.value.zbuffer| == |b.zbuffer|
        && (forall k :: 0 <= k < |b.zbuffer| ==> r.value.zbuffer[k] >= b.zbuffer[k])
        && |r.value.scene| == |b.scene|
        && (forall i :: 0 <= i < |b.scene| ==> |r.value.scene[i]| == |b.scene[i]|)
  {
  }

  /**
   * Two fragments at one pixel, both inside their triangles: whichever is
   * committed first, the one with the greater depth ends up in both
   * buffers, and the other changes nothing once it is there.
   */
  lemma GreaterDepthWins(b: Buffers, width: nat, p: Vector, bc1: Vector, bc2: Vector,
                         d1: real, d2: real, c1: u32, c2: u32, discard2: bool)
    requires |p.vec| == 2 && |bc1.vec| == 3 && |bc2.vec| == 3
    requires !Outside(bc1) && !Outside(bc2) && d2 < d1
    requires PixelIndex(p, width) < |b.zbuffer| && b.zbuffer[PixelIndex(p, width)] <= d1
    requires AsUsize(p.vec[0]) < |b.scene| && AsUsize(p.vec[1]) < |b.scene[AsUsize(p.vec[0])]|
    ensures var r1, r2 := Commit(b, width, p, bc1, d1, false, c1), Commit(b, width, p, bc2, d2, discard2, c2);
      r1.Ok? && r2.Ok?
      && Commit(r1.value, width, p, bc2, d2, discard2, c2) == r1
      && Commit(r2.value, width, p, bc1, d1, false, c1) == r1
      && r1.value.scene[AsUsize(p.vec[0])][AsUsize(p.vec[1])] == c1
      && r1.value.zbuffer[PixelIndex(p, width)] == d1
  {
    var idx, x, y := PixelIndex(p, width), AsUsize(p.vec[0]), AsUsize(p.vec[1]);
    var first := Buffers(SetPixel(b.scene, x, y, c1), b.zbuffer[idx := d1]);
    assert Commit(b, width, p, bc1, d1, false, c1) == Ok(first);
    assert DepthTest(bc2, first.zbuffer, idx, d2) == Ok(true);
    var r2 := Commit(b, width, p, bc2, d2, discard2, c2);
    if b.zbuffer[idx] <= d2 && !discard2 {
      var second := Buffers(SetPixel(b.scene, x, y, c2), b.zbuffer[idx := d2]);
      assert r2 == Ok(second);
      assert DepthTest(bc1, second.zbuffer, idx, d1) == Ok(false);
      var again := SetPixel(second.scene, x, y, c1);
      forall i | 0 <= i < |b.scene|
        ensures again[i] == first.scene[i]
      {
        assert forall j :: 0 <= j < |b.scene[i]| ==> again[i][j] == first.scene[i][j];
      }
      assert again == first.scene;
      assert second.zbuffer[idx := d1] == first.zbuffer;
    } else {
      assert r2 == Ok(b);
    }
  }

  /** `b` has the shape `Scene::new` gives it. */
  predicate Shaped(b: Buffers, width: nat, height: nat)
  {
    |b.scene| == height && (forall x :: 0 <= x < height ==> |b.scene[x]| == width)
    && |b.zbuffer| == width * height
  }

  lemma FloorMono(r: real, s: real)
    requires 0.0 <= r <= s
    ensures AsUsize(r) <= AsUsize(s)
  {
  }

  lemma ScaleMono(a: real, b: real, k: real)
    requires a <= b && k >= 0.0
    ensures a * k <= b * k
  {
  }

  /** The index of a pixel of a square scene's box is below the number of pixels. */
  lemma IndexInRange(n: nat, x: real, y: real)
    requires n > 0 && 0.0 <= x <= (n - 1) as real && 0.0 <= y <= (n - 1) as real
    ensures AsUsize(x + y * n as real) < n * n
  {
    var w, m := n as real, (n - 1) as real;
    var k := n * n - 1;
    ScaleMono(y, m, w);
    ScaleMono(0.0, y, w);
    assert m * w == ((n - 1) * n) as real;
    assert (n - 1) + (n - 1) * n == k;
    assert x + y * w <= k as real;
    FloorMono(x + y * w, k as real);
    assert AsUsize(k as real) == k;
  }

  /**
   * On a square scene every pixel of the clamped box is inside both
   * buffers, so the step never panics.
   */
  lemma SquareNeverPanics(b: Buffers, n: nat, p: Vector, bc: Vector, depth: real, discard: bool, color: u32)
    requires Shaped(b, n, n) && n > 0 && |p.vec| == 2 && |bc.vec| == 3
    requires 0.0 <= p.vec[0] <= (n - 1) as real && 0.0 <= p.vec[1] <= (n - 1) as real
    ensures Commit(b, n, p, bc, depth, discard, color).Ok?
  {
    IndexInRange(n, p.vec[0], p.vec[1]);
    FloorMono(p.vec[0], (n - 1) as real);
    FloorMono(p.vec[1], (n - 1) as real);
    assert AsUsize((n - 1) as real) == n - 1;
  }

  /**
   * `set` indexes the rows, of which there are `height`, by `x`, which runs
   * up to `width - 1`: a pixel in the top-right corner of a scene two
   * pixels wide and one high passes the depth test and then panics.
   */
  lemma WideScenePanics()
    ensures var b := Buffers([[0, 0]], [-F32Max, -F32Max]);
      Shaped(b, 2, 1) && Commit(b, 2, Vector([1.0, 0.0]), Vector([0.0, 0.0, 1.0]), 0.0, false, 7).Panic?
  {
    var b := Buffers([[0, 0]], [-F32Max, -F32Max]);
    var p := Vector([1.0, 0.0]);
    assert PixelIndex(p, 2) == 1;
    assert AsUsize(p.vec[0]) == 1;
  }

  // ---------------------------------------------------------------------
  // The clamped bounding box
  // ---------------------------------------------------------------------

  /** The box `[min[0], max[0]] x [min[1], max[1]]` scanned for one triangle. */
  datatype Box = Box(min: seq<real>, max: seq<real>)

  /** The screen positions of the three vertices: a `Matrix<3, 2>`. */
  predicate Triangle2D(pts2: seq<seq<real>>)
  {
    |pts2| == 3 && forall i :: 0 <= i < 3 ==> |pts2[i]| == 2
  }

  /**
   * The box of `Scene::triangle` in closed form: in each axis the least
   * coordinate, but not below 0, and the greatest, but not beyond the last
   * pixel; the starting values `f32::MAX` and `-f32::MAX` take part. A
   * scene with no columns or no rows panics on `width - 1`.
   */
  function ClampedBox(pts2: seq<seq<real>>, width: nat, height: nat): Outcome<Box>
    requires Triangle2D(pts2)
  {
    if width == 0 || height == 0 then Panic
    else
      var clamp := [(width - 1) as real, (height - 1) as real];
      Ok(Box(
        seq(2, j requires 0 <= j < 2 =>
          RMax(0.0, RMin(F32Max, RMin(pts2[0][j], RMin(pts2[1][j], pts2[2][j]))))),
        seq(2, j requires 0 <= j < 2 =>
          RMin(clamp[j], RMax(-F32Max, RMax(pts2[0][j], RMax(pts2[1][j], pts2[2][j])))))))
  }

  /** The running minimum after the first `i` vertices, from `f32::MAX`. */
  function LowestUpTo(pts2: seq<seq<real>>, j: nat, i: nat): real
    requires Triangle2D(pts2) && j < 2 && i <= 3
  {
    if i == 0 then F32Max else RMin(LowestUpTo(pts2, j, i - 1), pts2[i - 1][j])
  }

  /** The running maximum after the first `i` vertices, from `-f32::MAX`. */
  function HighestUpTo(pts2: seq<seq<real>>, j: nat, i: nat): real
    requires Triangle2D(pts2) && j < 2 && i <= 3
  {
    if i == 0 then -F32Max else RMax(HighestUpTo(pts2, j, i - 1), pts2[i - 1][j])
  }

  /** The loops of `Scene::triangle` at src/scene.rs, lines 79 to 88, updating each bound in place. */
  method BoundingBox(pts2: seq<seq<real>>, width: nat, height: nat) returns (r: Outcome<Box>)
    requires Triangle2D(pts2)
    ensures r == ClampedBox(pts2, width, height)
  {
    if width == 0 || height == 0 {
      return Panic;
    }
    var bboxmin := [F32Max, F32Max];
    var bboxmax := [-F32Max, -F32Max];
    var clamp := [(width - 1) as real, (height - 1) as real];
    for i := 0 to 3
      invariant |bboxmin| == 2 && |bboxmax| == 2
      invariant forall j :: 0 <= j < 2 ==>
        bboxmin[j] == (if i == 0 then F32Max else RMax(0.0, LowestUpTo(pts2, j, i)))
      invariant forall j :: 0 <= j < 2 ==>
        bboxmax[j] == (if i == 0 then -F32Max else RMin(clamp[j], HighestUpTo(pts2, j, i)))
    {
      for j := 0 to 2
        invariant |bboxmin| == 2 && |bboxmax| == 2
        invariant forall k :: 0 <= k < j ==>
          bboxmin[k] == RMax(0.0, LowestUpTo(pts2, k, i + 1))
          && bboxmax[k] == RMin(clamp[k], HighestUpTo(pts2, k, i + 1))
        invariant forall k :: j <= k < 2 ==>
          bboxmin[k] == (if i == 0 then F32Max else RMax(0.0, LowestUpTo(pts2, k, i)))
          && bboxmax[k] == (if i == 0 then -F32Max else RMin(clamp[k], HighestUpTo(pts2, k, i)))
      {
        BoundStep(pts2, j, i, clamp[j]);
        bboxmin := bboxmin[j := RMax(0.0, RMin(bboxmin[j], pts2[i][j]))];
        bboxmax := bboxmax[j := RMin(clamp[j], RMax(bboxmax[j], pts2[i][j]))];
      }
    }
    var expected := ClampedBox(pts2, width, height).value;
    forall j | 0 <= j < 2
      ensures bboxmin[j] == expected.min[j] && bboxmax[j] == expected.max[j]
    {
      RunningBounds(pts2, j);
    }
    assert bboxmin == expected.min && bboxmax == expected.max;
    r := Ok(Box(bboxmin, bboxmax));
  }

  /** Clamping after every vertex gives what clamping once at the end gives. */
  lemma BoundStep(pts2: seq<seq<real>>, j: nat, i: nat, limit: real)
    requires Triangle2D(pts2) && j < 2 && i < 3
    ensures RMax(0.0, RMin(if i == 0 then F32Max else RMax(0.0, LowestUpTo(pts2, j, i)), pts2[i][j]))
      == RMax(0.0, LowestUpTo(pts2, j, i + 1))
    ensures RMin(limit, RMax(if i == 0 then -F32Max else RMin(limit, HighestUpTo(pts2, j, i)), pts2[i][j]))
      == RMin(limit, HighestUpTo(pts2, j, i + 1))
  {
  }

  /** After the three vertices the running bounds are the closed-form ones. */
  lemma RunningBounds(pts2: seq<seq<real>>, j: nat)
    requires Triangle2D(pts2) && j < 2
    ensures LowestUpTo(pts2, j, 3) == RMin(F32Max, RMin(pts2[0][j], RMin(pts2[1][j], pts2[2][j])))
    ensures HighestUpTo(pts2, j, 3) == RMax(-F32Max, RMax(pts2[0][j], RMax(pts2[1][j], pts2[2][j])))
  {
    assert LowestUpTo(pts2, j, 1) == RMin(F32Max, pts2[0][j]);
    assert HighestUpTo(pts2, j, 1) == RMax(-F32Max, pts2[0][j]);
  }

  /** The box lies on the screen: from pixel 0 to the last column and row. */
  lemma BoxOnScreen(pts2: seq<seq<real>>, width: nat, height: nat)
    requires Triangle2D(pts2)
    ensures ClampedBox(pts2, width, height).Ok? <==> width > 0 && height > 0
    ensures var r := ClampedBox(pts2, width, height);
      r.Ok? ==> (0.0 <= r.value.min[0] && 0.0 <= r.value.min[1]
        && r.value.max[0] <= (width - 1) as real && r.value.max[1] <= (height - 1) as real)
  {
  }

  /** Every on-screen vertex coordinate lies inside the box. */
  lemma BoxCoversVertices(pts2: seq<seq<real>>, width: nat, height: nat, i: nat, j: nat)
    requires Triangle2D(pts2) && width > 0 && height > 0 && i < 3 && j < 2
    requires 0.0 <= pts2[i][j] <= [(width - 1) as real, (height - 1) as real][j]
    ensures var r := ClampedBox(pts2, width, height).value;
      r.min[j] <= pts2[i][j] <= r.max[j]
  {
  }

  // ---------------------------------------------------------------------
  // cross and barycentric
  // ---------------------------------------------------------------------

  /** `cross` of src/scene.rs on `Vector<3, f32>`. */
  function Cross(v1: Vector, v2: Vector): (r: Vector)
    requires |v1.vec| == 3 && |v2.vec| == 3
    ensures |r.vec| == 3
  {
    Vector([
      v1.vec[1] * v2.vec[2] - v1.vec[2] * v2.vec[1],
      -(v1.vec[0] * v2.vec[2] - v1.vec[2] * v2.vec[0]),
      v1.vec[0] * v2.vec[1] - v1.vec[1] * v2.vec[0]])
  }

  function FromVector(v: Vector): Vector3D
    requires |v.vec| == 3
  {
    Vector3D(v.vec[0], v.vec[1], v.vec[2])
  }

  /** `cross` is the cross product of `Vector3D`, so it is orthogonal to both factors. */
  lemma CrossIsCross3D(v1: Vector, v2: Vector)
    requires |v1.vec| == 3 && |v2.vec| == 3
    ensures FromVector(Cross(v1, v2)) == Cross3D(FromVector(v1), FromVector(v2))
    ensures Dot(Cross(v1, v2), v1) == 0.0 && Dot(Cross(v1, v2), v2) == 0.0
  {
    var a, b := FromVector(v1), FromVector(v2);
    CrossOrthogonal(a, b);
    assert AsVector(a).vec == v1.vec;
    assert AsVector(b).vec == v2.vec;
    var w, x := AsVector(Cross3D(a, b)).vec, Cross(v1, v2).vec;
    assert w[0] == x[0] && w[1] == x[1] && w[2] == x[2];
    assert w == x;
    Dot3DIsDot(Cross3D(a, b), a);
    Dot3DIsDot(Cross3D(a, b), b);
  }

  /** A point of the plane: a `Vector<2, f32>`. */
  predicate Planar(v: Vector)
  {
    |v.vec| == 2
  }

  /** Row `i` of the local array `s` of `barycentric`. */
  function EdgeRow(a: Vector, b: Vector, c: Vector, p: Vector, i: nat): (r: Vector)
    requires Planar(a) && Planar(b) && Planar(c) && Planar(p) && i < 2
    ensures |r.vec| == 3
  {
    Vector([c.vec[i] - a.vec[i], b.vec[i] - a.vec[i], a.vec[i] - p.vec[i]])
  }

  /** The vector `u` of `barycentric`. */
  function Normal(a: Vector, b: Vector, c: Vector, p: Vector): (u: Vector)
    requires Planar(a) && Planar(b) && Planar(c) && Planar(p)
    ensures |u.vec| == 3
  {
    Cross(EdgeRow(a, b, c, p, 0), EdgeRow(a, b, c, p, 1))
  }

  /** The triangle is treated as degenerate when `|u[2]| <= 1e-2`. */
  predicate Degenerate(a: Vector, b: Vector, c: Vector, p: Vector)
    requires Planar(a) && Planar(b) && Planar(c) && Planar(p)
  {
    RAbs(Normal(a, b, c, p).vec[2]) <= 0.01
  }

  /**
   * `barycentric`: the weights of `a`, `b` and `c`, or `(-1, 1, 1)` (a
   * point outside) for a degenerate triangle.
   */
  function BarycentricOf(a: Vector, b: Vector, c: Vector, p: Vector): (r: Vector)
    requires Planar(a) && Planar(b) && Planar(c) && Planar(p)
    ensures |r.vec| == 3
    ensures Degenerate(a, b, c, p) ==> r == Vector([-1.0, 1.0, 1.0])
    ensures !Degenerate(a, b, c, p) ==> r.vec[0] + r.vec[1] + r.vec[2] == 1.0
  {
    var u := Normal(a, b, c, p).vec;
    if RAbs(u[2]) > 0.01 then
      Vector([1.0 - (u[0] + u[1]) / u[2], u[1] / u[2], u[0] / u[2]])
    else Vector([-1.0, 1.0, 1.0])
  }

  /** `barycentric`, filling the two rows of `s` in a loop. */
  method Barycentric(a: Vector, b: Vector, c: Vector, p: Vector) returns (r: Vector)
    requires Planar(a) && Planar(b) && Planar(c) && Planar(p)
    ensures r == BarycentricOf(a, b, c, p)
  {
    var s := new real[2, 3];
    for i := 0 to 2
      invariant forall k :: 0 <= k < i ==>
        Vector([s[k, 0], s[k, 1], s[k, 2]]) == EdgeRow(a, b, c, p, k)
    {
      s[i, 0] := c.vec[i] - a.vec[i];
      s[i, 1] := b.vec[i] - a.vec[i];
      s[i, 2] := a.vec[i] - p.vec[i];
    }
    var u := Cross(Vector([s[0, 0], s[0, 1], s[0, 2]]), Vector([s[1, 0], s[1, 1], s[1, 2]]));
    if RAbs(u.vec[2]) > 0.01 {
      r := Vector([1.0 - (u.vec[0] + u.vec[1]) / u.vec[2], u.vec[1] / u.vec[2], u.vec[0] / u.vec[2]]);
    } else {
      r := Vector([-1.0, 1.0, 1.0]);
    }
  }

  /** One coordinate of the weighted sum, given that `u` is orthogonal to that coordinate's row. */
  lemma WeightedCoordinate(ai: real, bi: real, ci: real, pi: real, u0: real, u1: real, u2: real)
    requires u2 != 0.0
    requires u0 * (ci - ai) + u1 * (bi - ai) + u2 * (ai - pi) == 0.0
    ensures (1.0 - (u0 + u1) / u2) * ai + (u1 / u2) * bi + (u0 / u2) * ci == pi
  {
    var q0, q1 := u0 / u2, u1 / u2;
    assert u0 == q0 * u2 && u1 == q1 * u2;
    assert u2 * (q0 * (ci - ai) + q1 * (bi - ai) + (ai - pi)) == 0.0;
    assert q0 * (ci - ai) + q1 * (bi - ai) + (ai - pi) == 0.0;
    assert (u0 + u1) / u2 == q0 + q1;
  }

  /**
   * For a triangle that is not degenerate the weights reproduce the point:
   * `r[0] * a + r[1] * b + r[2] * c == p` in both coordinates.
   */
  lemma BarycentricReproduces(a: Vector, b: Vector, c: Vector, p: Vector, i: nat)
    requires Planar(a) && Planar(b) && Planar(c) && Planar(p) && i < 2
    requires !Degenerate(a, b, c, p)
    ensures var r := BarycentricOf(a, b, c, p).vec;
      r[0] * a.vec[i] + r[1] * b.vec[i] + r[2] * c.vec[i] == p.vec[i]
  {
    var u := Normal(a, b, c, p).vec;
    NormalOrthogonal(a, b, c, p, i);
    WeightedCoordinate(a.vec[i], b.vec[i], c.vec[i], p.vec[i], u[0], u[1], u[2]);
  }

  /** `u` is orthogonal to both rows of `s`. */
  lemma NormalOrthogonal(a: Vector, b: Vector, c: Vector, p: Vector, i: nat)
    requires Planar(a) && Planar(b) && Planar(c) && Planar(p) && i < 2
    ensures var u := Normal(a, b, c, p).vec;
      u[0] * (c.vec[i] - a.vec[i]) + u[1] * (b.vec[i] - a.vec[i]) + u[2] * (a.vec[i] - p.vec[i]) == 0.0
  {
    var row := EdgeRow(a, b, c, p, i);
    var u := Normal(a, b, c, p);
    CrossIsCross3D(EdgeRow(a, b, c, p, 0), EdgeRow(a, b, c, p, 1));
    Dot3DIsDot(FromVector(u), FromVector(row));
    assert AsVector(FromVector(u)).vec == u.vec;
    assert AsVector(FromVector(row)).vec == row.vec;
  }

  // ---------------------------------------------------------------------
  // The perspective renormalisation
  // ---------------------------------------------------------------------

  /**
   * `bc_clip` of `Scene::triangle`: each screen weight divided by its
   * vertex's `w`, then all three divided by `bc_clip[1] + bc_clip[1] +
   * bc_clip[0]`. `None` where an `f32` division by zero would give a value
   * that is not finite.
   */
  function ClipWeights(bc: Vector, w: Vector): (r: Option<Vector>)
    requires |bc.vec| == 3 && |w.vec| == 3
    ensures r.Some? ==> |r.value.vec| == 3
  {
    if w.vec[0] == 0.0 || w.vec[1] == 0.0 || w.vec[2] == 0.0 then None
    else
      var c0, c1, c2 := bc.vec[0] / w.vec[0], bc.vec[1] / w.vec[1], bc.vec[2] / w.vec[2];
      var sum := c1 + c1 + c0;
      if sum == 0.0 then None else Some(Vector([c0 / sum, c1 / sum, c2 / sum]))
  }

  lemma QuotientIsOne(n: real, d: real)
    requires d != 0.0
    ensures n / d == 1.0 <==> n == d
  {
  }

  /**
   * Because the divisor counts the second weight twice and omits the third,
   * the renormalised weights sum to 1 exactly when the second and third
   * perspective-divided weights are equal.
   */
  lemma ClipWeightsSum(bc: Vector, w: Vector)
    requires |bc.vec| == 3 && |w.vec| == 3
    ensures var r := ClipWeights(bc, w);
      r.Some? ==>
        ((r.value.vec[0] + r.value.vec[1] + r.value.vec[2] == 1.0)
          <==> (bc.vec[1] / w.vec[1] == bc.vec[2] / w.vec[2]))
  {
    if ClipWeights(bc, w).Some? {
      var c0, c1, c2 := bc.vec[0] / w.vec[0], bc.vec[1] / w.vec[1], bc.vec[2] / w.vec[2];
      var sum := c1 + c1 + c0;
      var r := ClipWeights(bc, w).value.vec;
      assert r[0] + r[1] + r[2] == (c0 + c1 + c2) / sum;
      QuotientIsOne(c0 + c1 + c2, sum);
    }
  }
}
