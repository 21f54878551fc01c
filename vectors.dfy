/** Plain 2D vector algebra shared by the collision manager and the polygon tools.
    Coordinates are exact reals; the source's 64-bit floats are not modelled. */
module Vectors {

  datatype Vec = Vec(x: real, y: real)

  const Zero := Vec(0.0, 0.0)

  function Dot(a: Vec, b: Vec): real {
    a.x * b.x + a.y * b.y
  }

  function Add(a: Vec, b: Vec): Vec {
    Vec(a.x + b.x, a.y + b.y)
  }

  function Mul(a: Vec, k: real): Vec {
    Vec(a.x * k, a.y * k)
  }

  /** `fsub` is written as `fadd(a, fmul(b, -1))`. */
  function Sub(a: Vec, b: Vec): Vec {
    Add(a, Mul(b, -1.0))
  }

  /** The left-hand perpendicular (-y, x) used for every edge normal. */
  function Perp(v: Vec): Vec {
    Vec(-v.y, v.x)
  }

  /** The 2D cross product; `Dot(b, Perp(a))`. */
  function Cross(a: Vec, b: Vec): real {
    a.x * b.y - a.y * b.x
  }

  function Abs(r: real): real {
    if r < 0.0 then -r else r
  }

  function Min(a: real, b: real): real {
    if a <= b then a else b
  }

  function Max(a: real, b: real): real {
    if a >= b then a else b
  }

  function Square(r: real): real {
    r * r
  }

  /** Reflection across the x axis (y negated) and across the y axis (x negated). */
  function MirrorX(v: Vec): Vec { Vec(v.x, -v.y) }
  function MirrorY(v: Vec): Vec { Vec(-v.x, v.y) }

  /** The unique point p with `Dot(p, n1) == d1` and `Dot(p, n2) == d2`, by Cramer's rule,
      in the component order both intersectors write it. */
  function Solve2(n1: Vec, d1: real, n2: Vec, d2: real): (p: Vec)
    requires Cross(n1, n2) != 0.0
    ensures Dot(p, n1) == d1 && Dot(p, n2) == d2
  {
    var det := Cross(n1, n2);
    var px := n2.y * d1 - n1.y * d2;
    var py := -n2.x * d1 + n1.x * d2;
    assert n1.x * px + n1.y * py == d1 * det;
    assert n2.x * px + n2.y * py == d2 * det;
    DivSum(n1.x, n1.y, px, py, det);
    DivSum(n2.x, n2.y, px, py, det);
    Vec(px / det, py / det)
  }

  lemma DotZero(a: Vec, n: Vec)
    requires n == Zero
    ensures Dot(a, n) == 0.0
  {
  }

  /** A non-zero cross product needs two non-zero vectors. */
  lemma CrossNonZero(a: Vec, b: Vec)
    requires Cross(a, b) != 0.0
    ensures a != Zero && b != Zero
  {
  }

  lemma DivSum(a: real, b: real, u: real, v: real, det: real)
    requires det != 0.0
    ensures a * (u / det) + b * (v / det) == (a * u + b * v) / det
  {
  }

  /** Any point on both lines is the one Solve2 returns. */
  lemma {:induction false} Solve2Unique(n1: Vec, d1: real, n2: Vec, d2: real, q: Vec)
    requires Cross(n1, n2) != 0.0
    requires Dot(q, n1) == d1 && Dot(q, n2) == d2
    ensures q == Solve2(n1, d1, n2, d2)
  {
    var p := Solve2(n1, d1, n2, d2);
    var w := Vec(q.x - p.x, q.y - p.y);
    assert Dot(w, n1) == 0.0 && Dot(w, n2) == 0.0;
    assert w.x * Cross(n1, n2) == n2.y * Dot(w, n1) - n1.y * Dot(w, n2);
    assert w.y * Cross(n1, n2) == n1.x * Dot(w, n2) - n2.x * Dot(w, n1);
  }
}

/** Failure-carrying results for the operations that throw or dereference null in the source. */
module Results {

  datatype Option<+T> = None | Some(value: T)

  datatype Result<+T> = Ok(value: T) | Err(msg: string)
}
