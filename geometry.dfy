/**
 * The vector types of `src/geometry.rs` over exact reals: the const-generic
 * `Vector<N, T>`, whose operations fill a local array in a loop, and the
 * fixed-size `Vector2D` and `Vector3D`, whose operations are expressions.
 */
module Geometry {
  import opened Common

  // ---------------------------------------------------------------------
  // Vector<N, T>
  // ---------------------------------------------------------------------

  /** `Vector<N, T>`; the const parameter `N` is the length of `vec`. */
  datatype Vector = Vector(vec: seq<real>)

  /** Elementwise sum. */
  function Plus(a: Vector, b: Vector): Vector
    requires |a.vec| == |b.vec|
  {
    Vector(seq(|a.vec|, i requires 0 <= i < |a.vec| => a.vec[i] + b.vec[i]))
  }

  /** Elementwise difference. */
  function Minus(a: Vector, b: Vector): Vector
    requires |a.vec| == |b.vec|
  {
    Vector(seq(|a.vec|, i requires 0 <= i < |a.vec| => a.vec[i] - b.vec[i]))
  }

  /** Every element multiplied by `k`. */
  function Scaled(a: Vector, k: real): Vector
  {
    Vector(seq(|a.vec|, i requires 0 <= i < |a.vec| => a.vec[i] * k))
  }

  /** `a[0]*b[0] + ... + a[n-1]*b[n-1]`, accumulated from zero in index order. */
  function DotUpTo(a: seq<real>, b: seq<real>, n: nat): real
    requires n <= |a| && n <= |b|
  {
    if n == 0 then 0.0 else DotUpTo(a, b, n - 1) + a[n - 1] * b[n - 1]
  }

  /** The scalar product. */
  function Dot(a: Vector, b: Vector): real
    requires |a.vec| == |b.vec|
  {
    DotUpTo(a.vec, b.vec, |a.vec|)
  }

  /** `impl Add for Vector<N, T>`: fills a zeroed array element by element. */
  method Add(a: Vector, b: Vector) returns (r: Vector)
    requires |a.vec| == |b.vec|
    ensures |r.vec| == |a.vec|
    ensures forall i :: 0 <= i < |a.vec| ==> r.vec[i] == a.vec[i] + b.vec[i]
    ensures r == Plus(a, b)
  {
    var v := new real[|a.vec|](_ => 0.0);
    for i := 0 to |a.vec|
      invariant forall k :: 0 <= k < i ==> v[k] == a.vec[k] + b.vec[k]
    {
      v[i] := a.vec[i] + b.vec[i];
    }
    r := Vector(v[..]);
  }

  /** `impl Sub for Vector<N, T>`. */
  method Sub(a: Vector, b: Vector) returns (r: Vector)
    requires |a.vec| == |b.vec|
    ensures |r.vec| == |a.vec|
    ensures forall i :: 0 <= i < |a.vec| ==> r.vec[i] == a.vec[i] - b.vec[i]
    ensures r == Minus(a, b)
  {
    var v := new real[|a.vec|](_ => 0.0);
    for i := 0 to |a.vec|
      invariant forall k :: 0 <= k < i ==> v[k] == a.vec[k] - b.vec[k]
    {
      v[i] := a.vec[i] - b.vec[i];
    }
    r := Vector(v[..]);
  }

  /** `impl Mul<T> for Vector<N, T>`: multiplication by a scalar. */
  method Scale(a: Vector, k: real) returns (r: Vector)
    ensures |r.vec| == |a.vec|
    ensures forall i :: 0 <= i < |a.vec| ==> r.vec[i] == a.vec[i] * k
    ensures r == Scaled(a, k)
  {
    var v := new real[|a.vec|](_ => 0.0);
    for i := 0 to |a.vec|
      invariant forall j :: 0 <= j < i ==> v[j] == a.vec[j] * k
    {
      v[i] := a.vec[i] * k;
    }
    r := Vector(v[..]);
    assert forall i :: 0 <= i < |a.vec| ==> r.vec[i] == Scaled(a, k).vec[i];
  }

  /** `impl Mul for Vector<N, T>`: the scalar product, summed from zero. */
  method DotProduct(a: Vector, b: Vector) returns (r: real)
    requires |a.vec| == |b.vec|
    ensures r == Dot(a, b)
  {
    r := 0.0;
    for i := 0 to |a.vec|
      invariant r == DotUpTo(a.vec, b.vec, i)
    {
      r := r + a.vec[i] * b.vec[i];
    }
  }

  /**
   * `impl BitXor for Vector<N, T>`.  Element `i` reads `other[a]` and
   * `self[b]` with `a = i + 1` (0 for the last element) and `b = a + 1`
   * (1 when `a` is 0).  At `i = N - 2`, or at `i = 0` when `N = 1`, the
   * index `b` is `N`, so every non-empty vector panics; the empty vector
   * gives the empty vector.
   */
  method Cross(u: Vector, w: Vector) returns (r: Outcome<Vector>)
    requires |u.vec| == |w.vec|
    ensures r.Panic? <==> |u.vec| >= 1
    ensures r.Ok? ==> r.value == Vector([])
  {
    var n := |u.vec|;
    var v := new real[n](_ => 0.0);
    var i := 0;
    while i < n
      invariant 0 <= i <= n
      invariant n >= 2 ==> i <= n - 2
      invariant n == 1 ==> i == 0
    {
      var a := if i == n - 1 then 0 else i + 1;
      var b := if a == 0 then 1 else a + 1;
      if a >= n || b >= n {
        return Panic;
      }
      v[i] := w.vec[a] * u.vec[b] - u.vec[b] * w.vec[a];
      i := i + 1;
    }
    return Ok(Vector(v[..]));
  }

  /** Adding and then subtracting the same vector gives back the first. */
  lemma PlusMinus(a: Vector, b: Vector)
    requires |a.vec| == |b.vec|
    ensures Minus(Plus(a, b), b) == a
  {
    assert Minus(Plus(a, b), b).vec == a.vec;
  }

  /** The scalar product is symmetric. */
  lemma {:induction false} DotUpToSymmetric(a: seq<real>, b: seq<real>, n: nat)
    requires n <= |a| && n <= |b|
    ensures DotUpTo(a, b, n) == DotUpTo(b, a, n)
  {
    if n > 0 {
      DotUpToSymmetric(a, b, n - 1);
    }
  }

  /** Scaling one side scales the scalar product. */
  lemma {:induction false} DotUpToScaled(a: Vector, b: seq<real>, k: real, n: nat)
    requires n <= |a.vec| && n <= |b|
    ensures DotUpTo(Scaled(a, k).vec, b, n) == k * DotUpTo(a.vec, b, n)
  {
    if n > 0 {
      DotUpToScaled(a, b, k, n - 1);
    }
  }

  /** The scalar product distributes over the sum of vectors. */
  lemma {:induction false} DotUpToPlus(a: Vector, b: Vector, c: seq<real>, n: nat)
    requires |a.vec| == |b.vec| && n <= |a.vec| && n <= |c|
    ensures DotUpTo(Plus(a, b).vec, c, n) == DotUpTo(a.vec, c, n) + DotUpTo(b.vec, c, n)
  {
    if n > 0 {
      DotUpToPlus(a, b, c, n - 1);
    }
  }

  /** Bilinearity and symmetry of the scalar product of `Vector<N, T>`. */
  lemma DotLaws(a: Vector, b: Vector, c: Vector, k: real)
    requires |a.vec| == |b.vec| == |c.vec|
    ensures Dot(a, b) == Dot(b, a)
    ensures Dot(Scaled(a, k), b) == k * Dot(a, b)
    ensures Dot(Plus(a, b), c) == Dot(a, c) + Dot(b, c)
  {
    DotUpToSymmetric(a.vec, b.vec, |a.vec|);
    DotUpToScaled(a, b.vec, k, |a.vec|);
    DotUpToPlus(a, b, c.vec, |a.vec|);
  }

  // ---------------------------------------------------------------------
  // Vector2D<T>
  // ---------------------------------------------------------------------

  /** `Vector2D<T>`; `_line_math` uses it over `i32`, the rest over `f32`. */
  datatype Vector2D<T> = Vector2D(x: T, y: T)

  /** `impl Add for Vector2D<T>`. */
  function Add2D(a: Vector2D<real>, b: Vector2D<real>): Vector2D<real>
  {
    Vector2D(a.x + b.x, a.y + b.y)
  }

  /** `impl Sub for Vector2D<T>`. */
  function Sub2D(a: Vector2D<real>, b: Vector2D<real>): Vector2D<real>
  {
    Vector2D(a.x - b.x, a.y - b.y)
  }

  /** `impl Mul<T> for Vector2D<T>`: times a scalar. */
  function Scale2D(a: Vector2D<real>, k: real): Vector2D<real>
  {
    Vector2D(a.x * k, a.y * k)
  }

  /** The two components of a `Vector2D` as a `Vector<2, T>`. */
  function AsVector2(a: Vector2D<real>): (v: Vector)
    ensures |v.vec| == 2
  {
    Vector([a.x, a.y])
  }

  /**
   * The `Vector2D` sum, difference and scaling are the element-wise ones of
   * `Vector<2, T>`, so subtracting what was added gives the vector back.
   */
  lemma Ops2DAreElementwise(a: Vector2D<real>, b: Vector2D<real>, k: real)
    ensures AsVector2(Add2D(a, b)) == Plus(AsVector2(a), AsVector2(b))
    ensures AsVector2(Sub2D(a, b)) == Minus(AsVector2(a), AsVector2(b))
    ensures AsVector2(Scale2D(a, k)) == Scaled(AsVector2(a), k)
    ensures Sub2D(Add2D(a, b), b) == a
  {
    var p, q := Plus(AsVector2(a), AsVector2(b)).vec, AsVector2(Add2D(a, b)).vec;
    assert |p| == |q| == 2 && p[0] == q[0] && p[1] == q[1];
    assert p == q;
    var m, n := Minus(AsVector2(a), AsVector2(b)).vec, AsVector2(Sub2D(a, b)).vec;
    assert |m| == |n| == 2 && m[0] == n[0] && m[1] == n[1];
    assert m == n;
    var s, t := Scaled(AsVector2(a), k).vec, AsVector2(Scale2D(a, k)).vec;
    assert |s| == |t| == 2 && s[0] == t[0] && s[1] == t[1];
    assert s == t;
  }

  /** `impl BitXor for Vector2D<T>`: both components are `y1*x2 - x1*y2`. */
  function Cross2D(a: Vector2D<real>, b: Vector2D<real>): Vector2D<real>
  {
    Vector2D(a.y * b.x - a.x * b.y, a.y * b.x - a.x * b.y)
  }

  // ---------------------------------------------------------------------
  // Vector3D<T>
  // ---------------------------------------------------------------------

  /** `Vector3D<T>` over `f32`. */
  datatype Vector3D = Vector3D(x: real, y: real, z: real)

  /** `impl Add for Vector3D<T>`. */
  function Add3D(a: Vector3D, b: Vector3D): Vector3D
  {
    Vector3D(a.x + b.x, a.y + b.y, a.z + b.z)
  }

  /** `impl Sub for Vector3D<T>`. */
  function Sub3D(a: Vector3D, b: Vector3D): Vector3D
  {
    Vector3D(a.x - b.x, a.y - b.y, a.z - b.z)
  }

  /** `impl Mul<T> for Vector3D<T>`: times a scalar. */
  function Scale3D(a: Vector3D, k: real): Vector3D
  {
    Vector3D(a.x * k, a.y * k, a.z * k)
  }

  /** `impl Mul for Vector3D<T>`: the explicit three-term scalar product. */
  function Dot3D(a: Vector3D, b: Vector3D): real
  {
    a.x * b.x + a.y * b.y + a.z * b.z
  }

  /** `impl BitXor for Vector3D<T>`: the cross product. */
  function Cross3D(a: Vector3D, b: Vector3D): Vector3D
  {
    Vector3D(a.y * b.z - a.z * b.y, a.z * b.x - a.x * b.z, a.x * b.y - a.y * b.x)
  }

  /** The three elements of a `Vector3D` as a `Vector<3, T>`. */
  function AsVector(a: Vector3D): (v: Vector)
    ensures |v.vec| == 3
  {
    Vector([a.x, a.y, a.z])
  }

  /**
   * The `Vector3D` sum, difference and scaling are the element-wise ones of
   * `Vector<3, T>`, so subtracting what was added gives the vector back.
   */
  lemma Ops3DAreElementwise(a: Vector3D, b: Vector3D, k: real)
    ensures AsVector(Add3D(a, b)) == Plus(AsVector(a), AsVector(b))
    ensures AsVector(Sub3D(a, b)) == Minus(AsVector(a), AsVector(b))
    ensures AsVector(Scale3D(a, k)) == Scaled(AsVector(a), k)
    ensures Sub3D(Add3D(a, b), b) == a
  {
    var p, q := Plus(AsVector(a), AsVector(b)).vec, AsVector(Add3D(a, b)).vec;
    assert |p| == |q| == 3 && p[0] == q[0] && p[1] == q[1] && p[2] == q[2];
    assert p == q;
    var m, n := Minus(AsVector(a), AsVector(b)).vec, AsVector(Sub3D(a, b)).vec;
    assert |m| == |n| == 3 && m[0] == n[0] && m[1] == n[1] && m[2] == n[2];
    assert m == n;
    var s, t := Scaled(AsVector(a), k).vec, AsVector(Scale3D(a, k)).vec;
    assert |s| == |t| == 3 && s[0] == t[0] && s[1] == t[1] && s[2] == t[2];
    assert s == t;
  }

  /** The `Vector3D` scalar product is the `Vector<3, T>` one. */
  lemma Dot3DIsDot(a: Vector3D, b: Vector3D)
    ensures Dot3D(a, b) == Dot(AsVector(a), AsVector(b))
  {
    var u, w := AsVector(a).vec, AsVector(b).vec;
    assert DotUpTo(u, w, 1) == a.x * b.x;
    assert DotUpTo(u, w, 2) == a.x * b.x + a.y * b.y;
  }

  /** The cross product is orthogonal to both factors. */
  lemma CrossOrthogonal(a: Vector3D, b: Vector3D)
    ensures Dot3D(Cross3D(a, b), a) == 0.0
    ensures Dot3D(Cross3D(a, b), b) == 0.0
  {
    var c := Cross3D(a, b);
    assert c.x * a.x + c.y * a.y + c.z * a.z
        == (a.y * b.z * a.x - a.z * b.y * a.x) + (a.z * b.x * a.y - a.x * b.z * a.y)
         + (a.x * b.y * a.z - a.y * b.x * a.z);
    assert c.x * b.x + c.y * b.y + c.z * b.z
        == (a.y * b.z * b.x - a.z * b.y * b.x) + (a.z * b.x * b.y - a.x * b.z * b.y)
         + (a.x * b.y * b.z - a.y * b.x * b.z);
  }

  /** Swapping the factors negates the cross product. */
  lemma CrossAntisymmetric(a: Vector3D, b: Vector3D)
    ensures Cross3D(b, a) == Scale3D(Cross3D(a, b), -1.0)
  {
  }

  /**
   * The `Vector2D` operator gives, in both components, the negated
   * z-component of the cross product of the two vectors placed in the
   * plane `z = 0`.
   */
  lemma Cross2DIsPlanarCross(a: Vector2D<real>, b: Vector2D<real>)
    ensures Cross2D(a, b).x == Cross2D(a, b).y
    ensures Cross2D(a, b).x == -Cross3D(Vector3D(a.x, a.y, 0.0), Vector3D(b.x, b.y, 0.0)).z
  {
  }
}
