/**
 Fixed-dimension vectors (`std::array<REAL, DIMS>`) as sequences of exact
 reals, with the componentwise operations and the dot product the particle
 code uses.
 */
module Vectors {

  type Vec = seq<real>

  /** The value-initialised array `{}`. */
  function Zeros(n: nat): (z: Vec)
    ensures |z| == n
    ensures forall i :: 0 <= i < n ==> z[i] == 0.0
  {
    seq(n, _ => 0.0)
  }

  function Plus(a: Vec, b: Vec): (c: Vec)
    requires |a| == |b|
    ensures |c| == |a|
    ensures forall i :: 0 <= i < |a| ==> c[i] == a[i] + b[i]
  {
    seq(|a|, i requires 0 <= i < |a| => a[i] + b[i])
  }

  function Sub(a: Vec, b: Vec): (c: Vec)
    requires |a| == |b|
    ensures |c| == |a|
    ensures forall i :: 0 <= i < |a| ==> c[i] == a[i] - b[i]
  {
    seq(|a|, i requires 0 <= i < |a| => a[i] - b[i])
  }

  function Scale(k: real, a: Vec): (c: Vec)
    ensures |c| == |a|
    ensures forall i :: 0 <= i < |a| ==> c[i] == k * a[i]
  {
    seq(|a|, i requires 0 <= i < |a| => k * a[i])
  }

  /** The componentwise (Hadamard) product. */
  function Times(a: Vec, b: Vec): (c: Vec)
    requires |a| == |b|
    ensures |c| == |a|
    ensures forall i :: 0 <= i < |a| ==> c[i] == a[i] * b[i]
  {
    seq(|a|, i requires 0 <= i < |a| => a[i] * b[i])
  }

  /**
   A product of two reals. Products are written through this function in
   dot products so that a square `x * x` is one term for the solver.
   */
  function Mul(x: real, y: real): real {
    x * y
  }

  /** The dot product, summed from the last component down. */
  function Dot(a: Vec, b: Vec): real
    requires |a| == |b|
    decreases |a|
  {
    if |a| == 0 then 0.0
    else Dot(a[..|a| - 1], b[..|b| - 1]) + Mul(a[|a| - 1], b[|b| - 1])
  }

  /** `sqrt` is a square root on the non-negative reals. */
  ghost predicate IsSqrt(sqrt: real -> real) {
    forall x :: 0.0 <= x ==> 0.0 <= sqrt(x) && Mul(sqrt(x), sqrt(x)) == x
  }

  lemma MulPositive(x: real, y: real)
    requires x > 0.0 && y > 0.0
    ensures Mul(x, y) > 0.0
  {
  }

  lemma MulNegNeg(x: real, y: real)
    ensures Mul(-x, -y) == Mul(x, y)
  {
  }

  lemma SquarePositive(x: real)
    ensures x != 0.0 ==> Mul(x, x) > 0.0
    ensures Mul(x, x) >= 0.0
  {
    if x > 0.0 {
      MulPositive(x, x);
    } else if x < 0.0 {
      MulPositive(-x, -x);
      MulNegNeg(x, x);
    }
  }

  lemma {:induction false} DotSelfNonNegative(a: Vec)
    ensures Dot(a, a) >= 0.0
    decreases |a|
  {
    if |a| > 0 {
      DotSelfNonNegative(a[..|a| - 1]);
      SquarePositive(a[|a| - 1]);
    }
  }

  /** A vector with a non-zero component has a positive squared length. */
  lemma {:induction false} DotSelfPositive(a: Vec, i: int)
    requires 0 <= i < |a| && a[i] != 0.0
    ensures Dot(a, a) > 0.0
    decreases |a|
  {
    var n := |a| - 1;
    SquarePositive(a[n]);
    if i == n {
      DotSelfNonNegative(a[..n]);
    } else {
      assert a[..n][i] == a[i];
      DotSelfPositive(a[..n], i);
    }
  }

  /** Only the zero vector has squared length zero. */
  lemma DotSelfZero(a: Vec)
    requires Dot(a, a) == 0.0
    ensures forall i :: 0 <= i < |a| ==> a[i] == 0.0
  {
    forall i | 0 <= i < |a| ensures a[i] == 0.0 {
      if a[i] != 0.0 {
        DotSelfPositive(a, i);
      }
    }
  }

  lemma {:induction false} DotZeroLeft(a: Vec, b: Vec)
    requires |a| == |b|
    requires forall i :: 0 <= i < |a| ==> a[i] == 0.0
    ensures Dot(a, b) == 0.0
    decreases |a|
  {
    if |a| > 0 {
      var n := |a| - 1;
      assert forall i :: 0 <= i < n ==> a[..n][i] == a[i];
      DotZeroLeft(a[..n], b[..n]);
    }
  }

  /** Negating both arguments leaves the dot product unchanged. */
  lemma {:induction false} DotNegNeg(a: Vec, b: Vec)
    requires |a| == |b|
    ensures Dot(Scale(-1.0, a), Scale(-1.0, b)) == Dot(a, b)
    decreases |a|
  {
    if |a| > 0 {
      var n := |a| - 1;
      assert Scale(-1.0, a)[..n] == Scale(-1.0, a[..n]);
      assert Scale(-1.0, b)[..n] == Scale(-1.0, b[..n]);
      DotNegNeg(a[..n], b[..n]);
      assert Mul(-1.0 * a[n], -1.0 * b[n]) == Mul(a[n], b[n]);
    }
  }

  lemma DotSingle(x: real, y: real)
    ensures Dot([x], [y]) == x * y
  {
    assert [x][..0] == [];
    assert [y][..0] == [];
  }

  /** `gg == pp + t (2 vp + vv t)`: a squared length expanded as a quadratic in `t`. */
  predicate SquareExpansion(gg: real, pp: real, vp: real, vv: real, t: real) {
    gg == pp + t * (2.0 * vp + vv * t)
  }

  /** The expansion is kept when one more component `x + t y` is added. */
  lemma SquareExpansionStep(gg: real, pp: real, vp: real, vv: real, x: real, y: real, z: real, t: real,
                            gg': real, pp': real, vp': real, vv': real)
    requires SquareExpansion(gg, pp, vp, vv, t)
    requires z == x + t * y
    requires gg' == gg + Mul(z, z) && pp' == pp + Mul(x, x)
    requires vp' == vp + Mul(y, x) && vv' == vv + Mul(y, y)
    ensures SquareExpansion(gg', pp', vp', vv', t)
  {
  }

  /** The squared length of the point `p + t v` on a line, as a quadratic in `t`. */
  predicate SquaredLine(p: Vec, v: Vec, t: real)
    requires |p| == |v|
  {
    var g := Plus(p, Scale(t, v));
    SquareExpansion(Dot(g, g), Dot(p, p), Dot(v, p), Dot(v, v), t)
  }

  lemma LinePrefix(p: Vec, v: Vec, t: real)
    requires |p| == |v| && |p| > 0
    ensures Plus(p, Scale(t, v))[..|p| - 1] == Plus(p[..|p| - 1], Scale(t, v[..|p| - 1]))
    ensures Plus(p, Scale(t, v))[|p| - 1] == p[|p| - 1] + t * v[|p| - 1]
  {
    var n := |p| - 1;
    forall i | 0 <= i < n
      ensures Plus(p, Scale(t, v))[..n][i] == Plus(p[..n], Scale(t, v[..n]))[i]
    {
    }
  }

  lemma DotLast(a: Vec, b: Vec)
    requires |a| == |b| && |a| > 0
    ensures Dot(a, b) == Dot(a[..|a| - 1], b[..|a| - 1]) + Mul(a[|a| - 1], b[|a| - 1])
  {
  }

  lemma SquaredLineStep(p: Vec, v: Vec, t: real)
    requires |p| == |v| && |p| > 0
    requires SquaredLine(p[..|p| - 1], v[..|p| - 1], t)
    ensures SquaredLine(p, v, t)
  {
    var n := |p| - 1;
    var g := Plus(p, Scale(t, v));
    LinePrefix(p, v, t);
    DotLast(g, g);
    DotLast(p, p);
    DotLast(v, p);
    DotLast(v, v);
    SquareExpansionStep(Dot(g[..n], g[..n]), Dot(p[..n], p[..n]), Dot(v[..n], p[..n]), Dot(v[..n], v[..n]),
                        p[n], v[n], g[n], t, Dot(g, g), Dot(p, p), Dot(v, p), Dot(v, v));
  }

  /** `|p + t v|^2 == p.p + t (2 v.p + v.v t)`, component by component. */
  lemma {:induction false} DotLine(p: Vec, v: Vec, t: real)
    requires |p| == |v|
    ensures SquaredLine(p, v, t)
    decreases |p|
  {
    if |p| > 0 {
      DotLine(p[..|p| - 1], v[..|p| - 1], t);
      SquaredLineStep(p, v, t);
    } else {
      var g := Plus(p, Scale(t, v));
      assert Dot(g, g) == 0.0 && Dot(p, p) == 0.0 && Dot(v, p) == 0.0 && Dot(v, v) == 0.0;
      assert SquareExpansion(0.0, 0.0, 0.0, 0.0, t);
    }
  }

  /** `gv == vp + t vv`: a dot product with a point of a line, linear in `t`. */
  predicate LinearExpansion(gv: real, vp: real, vv: real, t: real) {
    gv == vp + t * vv
  }

  /** The expansion is kept when one more component `x + t y` is added. */
  lemma LinearExpansionStep(gv: real, vp: real, vv: real, x: real, y: real, z: real, t: real,
                            gv': real, vp': real, vv': real)
    requires LinearExpansion(gv, vp, vv, t)
    requires z == x + t * y
    requires gv' == gv + Mul(z, y) && vp' == vp + Mul(y, x) && vv' == vv + Mul(y, y)
    ensures LinearExpansion(gv', vp', vv', t)
  {
  }

  /** The dot product of the point `p + t v` with the direction `v`, as a line in `t`. */
  predicate AlongLine(p: Vec, v: Vec, t: real)
    requires |p| == |v|
  {
    LinearExpansion(Dot(Plus(p, Scale(t, v)), v), Dot(v, p), Dot(v, v), t)
  }

  lemma AlongLineStep(p: Vec, v: Vec, t: real)
    requires |p| == |v| && |p| > 0
    requires AlongLine(p[..|p| - 1], v[..|p| - 1], t)
    ensures AlongLine(p, v, t)
  {
    var n := |p| - 1;
    var g := Plus(p, Scale(t, v));
    LinePrefix(p, v, t);
    DotLast(g, v);
    DotLast(v, p);
    DotLast(v, v);
    LinearExpansionStep(Dot(g[..n], v[..n]), Dot(v[..n], p[..n]), Dot(v[..n], v[..n]),
                        p[n], v[n], g[n], t, Dot(g, v), Dot(v, p), Dot(v, v));
  }

  /** `(p + t v).v == v.p + t v.v`, component by component. */
  lemma {:induction false} DotLineLeft(p: Vec, v: Vec, t: real)
    requires |p| == |v|
    ensures AlongLine(p, v, t)
    decreases |p|
  {
    if |p| > 0 {
      DotLineLeft(p[..|p| - 1], v[..|p| - 1], t);
      AlongLineStep(p, v, t);
    } else {
      var g := Plus(p, Scale(t, v));
      assert Dot(g, v) == 0.0 && Dot(v, p) == 0.0 && Dot(v, v) == 0.0;
      assert LinearExpansion(0.0, 0.0, 0.0, t);
    }
  }

  /** The square is strictly increasing on the non-negative reals. */
  lemma SquareMonotone(x: real, y: real)
    requires 0.0 <= x < y
    ensures Mul(x, x) < Mul(y, y)
  {
    MulPositive(y - x, y + x);
    assert Mul(y, y) - Mul(x, x) == Mul(y - x, y + x);
  }

  /** A square root is unique: the non-negative `s` with `s * s == x * x` is `x`. */
  lemma RootUnique(s: real, x: real)
    requires 0.0 <= s && 0.0 <= x && Mul(s, s) == Mul(x, x)
    ensures s == x
  {
    if s < x {
      SquareMonotone(s, x);
    } else if x < s {
      SquareMonotone(x, s);
    }
  }
}
