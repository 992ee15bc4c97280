/**
 The collision rules of the blocking collider: the time at which two
 moving spheres first touch, found from the discriminant of a quadratic,
 and the two impulse rules that turn a contact into velocity deltas.
 */
module CollisionRules {
  import opened ExtReal
  import opened Vectors
  import opened Particles
  import opened Deltas
  import opened Results

  /** Two particles whose vectors all have the same number of components. */
  predicate Comparable(l: Particle, r: Particle) {
    |l.position| == |l.velocity| == |r.position| == |r.velocity|
  }

  /** The relative position `lhs - rhs`, both extrapolated back to time 0. */
  function RelPos(l: Particle, r: Particle): (p: Vec)
    requires Comparable(l, r)
    ensures |p| == |l.position|
  {
    Sub(PositionAt(l, 0.0), PositionAt(r, 0.0))
  }

  /** The relative velocity `lhs - rhs`. */
  function RelVel(l: Particle, r: Particle): (v: Vec)
    requires Comparable(l, r)
    ensures |v| == |l.position|
  {
    Sub(l.velocity, r.velocity)
  }

  /** A quadratic `a t^2 + b t + c` in the time `t`. */
  datatype Quadratic = Quadratic(a: real, b: real, c: real)

  /** The value of the quadratic at `t`, in Horner form. */
  function Value(q: Quadratic, t: real): real {
    q.c + t * (q.b + q.a * t)
  }

  /** The derivative `2 a t + b` of the quadratic at `t`. */
  function Slope(q: Quadratic, t: real): real {
    2.0 * q.a * t + q.b
  }

  /** The discriminant `b*b - 4*a*c`. */
  function Discriminant(q: Quadratic): real {
    Mul(q.b, q.b) - 4.0 * q.a * q.c
  }

  /** The smaller root `(-b - s) / 2a`, for `s` the square root of the discriminant. */
  function EarlierRoot(q: Quadratic, s: real): real
    requires q.a != 0.0
  {
    (-q.b - s) / (2.0 * q.a)
  }

  /**
   The coefficients the code accumulates over the dimensions: with `p` the
   relative position at time 0 and `v` the relative velocity, `a = v.v`,
   `b = 2 v.p` and `c = p.p - (r_l + r_r)^2`. Their value at `t` is the
   squared distance of the centres at `t` less the squared contact
   distance.
   */
  function Coefficients(l: Particle, r: Particle): Quadratic
    requires Comparable(l, r)
  {
    var p := RelPos(l, r);
    var v := RelVel(l, r);
    Quadratic(Dot(v, v), 2.0 * Dot(v, p), Dot(p, p) - Mul(l.radius + r.radius, l.radius + r.radius))
  }

  /** The vector from the centre of `rhs` to that of `lhs` at time `t`. */
  function Gap(l: Particle, r: Particle, t: real): (d: Vec)
    requires Comparable(l, r)
    ensures |d| == |l.position|
  {
    Sub(PositionAt(l, t), PositionAt(r, t))
  }

  /** The gap moves linearly: the gap at time 0 plus `t` times the relative velocity. */
  lemma GapIsLinear(l: Particle, r: Particle, t: real)
    requires Comparable(l, r)
    ensures Gap(l, r, t) == Plus(RelPos(l, r), Scale(t, RelVel(l, r)))
  {
    var g, h := Gap(l, r, t), Plus(RelPos(l, r), Scale(t, RelVel(l, r)));
    forall i | 0 <= i < |g| ensures g[i] == h[i] {
      var vl, vr := l.velocity[i], r.velocity[i];
      assert vl * (t - l.lastUpdated) == vl * (0.0 - l.lastUpdated) + t * vl;
      assert vr * (t - r.lastUpdated) == vr * (0.0 - r.lastUpdated) + t * vr;
      assert t * (vl - vr) == t * vl - t * vr;
    }
  }

  /** A squared-length expansion, read as the coefficients' value less the squared contact distance. */
  lemma ExpansionIsValue(gg: real, pp: real, vp: real, vv: real, rr: real, t: real)
    requires SquareExpansion(gg, pp, vp, vv, t)
    ensures Value(Quadratic(vv, 2.0 * vp, pp - rr), t) == gg - rr
  {
  }

  /**
   The value of the coefficients at `t` is the squared distance of the
   centres at `t` less the squared contact distance `(r_l + r_r)^2`.
   */
  lemma ValueIsSquaredGap(l: Particle, r: Particle, t: real)
    requires Comparable(l, r)
    ensures Value(Coefficients(l, r), t)
      == Dot(Gap(l, r, t), Gap(l, r, t)) - Mul(l.radius + r.radius, l.radius + r.radius)
  {
    var p, v, g := RelPos(l, r), RelVel(l, r), Gap(l, r, t);
    GapIsLinear(l, r, t);
    DotLine(p, v, t);
    ExpansionIsValue(Dot(g, g), Dot(p, p), Dot(v, p), Dot(v, v), Mul(l.radius + r.radius, l.radius + r.radius), t);
  }

  /** The slope of the coefficients at `t` is twice the rate at which the squared distance changes. */
  lemma SlopeIsClosingRate(l: Particle, r: Particle, t: real)
    requires Comparable(l, r)
    ensures Slope(Coefficients(l, r), t) == 2.0 * Dot(Gap(l, r, t), RelVel(l, r))
  {
    var p, v := RelPos(l, r), RelVel(l, r);
    GapIsLinear(l, r, t);
    DotLineLeft(p, v, t);
    ClosingRateIsSlope(Dot(Gap(l, r, t), v), Dot(v, p), Dot(v, v), Dot(p, p) - Mul(l.radius + r.radius, l.radius + r.radius), t);
  }

  /** A slope read off the coefficients: `gv == vp + t vv` makes `2 gv` the slope of `(vv, 2 vp, c)`. */
  lemma ClosingRateIsSlope(gv: real, vp: real, vv: real, c: real, t: real)
    requires LinearExpansion(gv, vp, vv, t)
    ensures Slope(Quadratic(vv, 2.0 * vp, c), t) == 2.0 * gv
  {
  }

  /** A positive discriminant needs a non-zero relative velocity, so `a` is positive. */
  lemma CorePositiveMoving(l: Particle, r: Particle)
    requires Comparable(l, r)
    requires Discriminant(Coefficients(l, r)) > 0.0
    ensures Coefficients(l, r).a > 0.0
  {
    DotSelfNonNegative(RelVel(l, r));
    if Coefficients(l, r).a == 0.0 {
      DotSelfZero(RelVel(l, r));
      DotZeroLeft(RelVel(l, r), RelPos(l, r));
      assert false;
    }
  }

  /**
   `blocking_collide_time`: the earlier root of the quadratic when the
   discriminant is positive and that root is no earlier than either
   particle's `lastUpdated`; otherwise never. A tangent touch (zero
   discriminant) counts as a miss.
   */
  function CollideTime(l: Particle, r: Particle, sqrt: real -> real): (t: Ext)
    requires Comparable(l, r)
    ensures t != NegInf
    ensures Discriminant(Coefficients(l, r)) <= 0.0 ==> t == PosInf
    ensures t.Fin? ==> t.r >= l.lastUpdated && t.r >= r.lastUpdated
  {
    var q := Coefficients(l, r);
    var core := Discriminant(q);
    if core <= 0.0 then PosInf
    else
      CorePositiveMoving(l, r);
      var hit := EarlierRoot(q, sqrt(core));
      if hit >= l.lastUpdated && hit >= r.lastUpdated then Fin(hit) else PosInf
  }

  /** The earlier root of a quadratic with a positive discriminant is a root at which it falls. */
  lemma EarlierRootIsFallingRoot(q: Quadratic, s: real)
    requires q.a > 0.0 && s > 0.0 && Mul(s, s) == Discriminant(q)
    ensures Value(q, EarlierRoot(q, s)) == 0.0
    ensures Slope(q, EarlierRoot(q, s)) < 0.0
  {
    var a, b, c, t := q.a, q.b, q.c, EarlierRoot(q, s);
    assert 2.0 * a * t == -b - s;
    var e := 2.0 * a * t + b;
    assert e == -s;
    assert Mul(e, e) == Mul(s, s);
    assert Mul(e, e) == 4.0 * a * (t * (b + a * t)) + Mul(b, b);
    assert 4.0 * a * (c + t * (b + a * t)) == 0.0;
  }

  /** Before its earlier root, a quadratic with `a > 0` is positive. */
  lemma BeforeEarlierRoot(q: Quadratic, s: real, t0: real)
    requires q.a > 0.0 && s > 0.0 && Mul(s, s) == Discriminant(q)
    requires t0 < EarlierRoot(q, s)
    ensures Value(q, t0) > 0.0
  {
    var a, b, c, t := q.a, q.b, q.c, EarlierRoot(q, s);
    var t2 := (-b + s) / (2.0 * a);
    assert 2.0 * a * t == -b - s;
    assert 2.0 * a * t2 == -b + s;
    assert t < t2;
    assert a * (t + t2) == -b;
    assert 4.0 * a * (a * (t * t2)) == Mul(b, b) - Mul(s, s) by {
      assert (2.0 * a * t) * (2.0 * a * t2) == (-b - s) * (-b + s);
    }
    assert a * (t * t2) == c;
    assert c + t0 * (b + a * t0) == a * ((t0 - t) * (t0 - t2));
    MulPositive(t - t0, t2 - t0);
    MulPositive(a, (t0 - t) * (t0 - t2));
  }

  /** The square root of a positive number is positive. */
  lemma SqrtPositive(sqrt: real -> real, x: real)
    requires IsSqrt(sqrt) && x > 0.0
    ensures sqrt(x) > 0.0 && Mul(sqrt(x), sqrt(x)) == x
  {
    assert Mul(sqrt(x), sqrt(x)) == x;
  }

  /**
   A finite collision time is a root of the quadratic at which it is
   falling: the centres are exactly the sum of the radii apart and are
   closing in.
   */
  lemma CollideTimeIsContact(l: Particle, r: Particle, sqrt: real -> real)
    requires Comparable(l, r) && IsSqrt(sqrt)
    requires CollideTime(l, r, sqrt).Fin?
    ensures Value(Coefficients(l, r), CollideTime(l, r, sqrt).r) == 0.0
    ensures Slope(Coefficients(l, r), CollideTime(l, r, sqrt).r) < 0.0
    ensures var g := Gap(l, r, CollideTime(l, r, sqrt).r);
      Dot(g, g) == Mul(l.radius + r.radius, l.radius + r.radius)
    ensures Dot(Gap(l, r, CollideTime(l, r, sqrt).r), RelVel(l, r)) < 0.0
  {
    var q, tc := Coefficients(l, r), CollideTime(l, r, sqrt).r;
    CorePositiveMoving(l, r);
    SqrtPositive(sqrt, Discriminant(q));
    EarlierRootIsFallingRoot(q, sqrt(Discriminant(q)));
    ValueIsSquaredGap(l, r, tc);
    SlopeIsClosingRate(l, r, tc);
  }

  /** At no earlier time does the contact polynomial reach zero: it is positive there. */
  lemma CollideTimeIsFirst(l: Particle, r: Particle, sqrt: real -> real, t0: real)
    requires Comparable(l, r) && IsSqrt(sqrt)
    requires CollideTime(l, r, sqrt).Fin?
    requires t0 < CollideTime(l, r, sqrt).r
    ensures Value(Coefficients(l, r), t0) > 0.0
  {
    var q := Coefficients(l, r);
    CorePositiveMoving(l, r);
    SqrtPositive(sqrt, Discriminant(q));
    BeforeEarlierRoot(q, sqrt(Discriminant(q)), t0);
  }

  /**
   At no earlier time, in particular none since both `lastUpdated`, are
   the spheres in contact: their centres are further apart than the sum
   of the radii.
   */
  lemma CollideTimeIsApart(l: Particle, r: Particle, sqrt: real -> real, t0: real)
    requires Comparable(l, r) && IsSqrt(sqrt)
    requires CollideTime(l, r, sqrt).Fin?
    requires t0 < CollideTime(l, r, sqrt).r
    ensures Dot(Gap(l, r, t0), Gap(l, r, t0)) > Mul(l.radius + r.radius, l.radius + r.radius)
  {
    CollideTimeIsFirst(l, r, sqrt, t0);
    ValueIsSquaredGap(l, r, t0);
  }

  /** Four `a` times the value is the squared slope less the discriminant. */
  lemma ValueBySlope(q: Quadratic, t: real)
    ensures 4.0 * q.a * Value(q, t) == Mul(Slope(q, t), Slope(q, t)) - Discriminant(q)
  {
    var a, b, c := q.a, q.b, q.c;
    var e := 2.0 * a * t + b;
    assert Mul(e, e) == 4.0 * a * (a * t * t) + 4.0 * a * (b * t) + b * b;
    assert 4.0 * a * Value(q, t) == 4.0 * a * (a * t * t) + 4.0 * a * (b * t) + 4.0 * a * c;
  }

  /** A square below `s * s` has its root strictly between `-s` and `s`. */
  lemma SquareBelow(e: real, s: real)
    requires s > 0.0 && Mul(e, e) < Mul(s, s)
    ensures -s < e < s
  {
    if e >= s || e <= -s {
      assert false;
    }
  }

  /** A square above `s * s` whose root is below `s` has that root below `-s`. */
  lemma SquareAbove(e: real, s: real)
    requires s > 0.0 && Mul(e, e) > Mul(s, s) && e < s
    ensures e < -s
  {
    if -s <= e {
      assert false;
    }
  }

  /** A product with a positive left factor is positive only when its right factor is. */
  lemma PositiveFactor(x: real, y: real)
    requires x > 0.0 && x * y > 0.0
    ensures y > 0.0
  {
  }

  /** The slope changes by `2 a` per unit of time. */
  lemma SlopeDifference(q: Quadratic, x: real, y: real)
    ensures Slope(q, x) - Slope(q, y) == (2.0 * q.a) * (x - y)
  {
  }

  /** With `a > 0` the slope is increasing, so a smaller slope means an earlier time. */
  lemma SlopeOrder(q: Quadratic, x: real, y: real)
    requires q.a > 0.0 && Slope(q, x) < Slope(q, y)
    ensures x < y
  {
    SlopeDifference(q, y, x);
    PositiveFactor(2.0 * q.a, y - x);
  }

  /** The slope at the earlier root is `-s`. */
  lemma EarlierRootSlope(q: Quadratic, s: real)
    requires q.a != 0.0
    ensures Slope(q, EarlierRoot(q, s)) == -s
  {
  }

  /**
   A quadratic with `a > 0` that is positive at `t0` and negative at a
   later `t1`: its slope at `t0` is below `-s` and its slope at `t1` is
   above it, for `s` the root of a discriminant that must be positive.
   */
  lemma SlopesBracket(q: Quadratic, s: real, t0: real, t1: real)
    requires q.a > 0.0 && s >= 0.0 && Mul(s, s) == Discriminant(q)
    requires t0 < t1 && Value(q, t0) > 0.0 && Value(q, t1) < 0.0
    ensures Discriminant(q) > 0.0 && s > 0.0
    ensures Slope(q, t0) < -s < Slope(q, t1)
  {
    var a, e0, e1 := q.a, Slope(q, t0), Slope(q, t1);
    ValueBySlope(q, t0);
    ValueBySlope(q, t1);
    assert 4.0 * a * Value(q, t1) < 0.0 by { MulPositive(4.0 * a, -Value(q, t1)); }
    assert 4.0 * a * Value(q, t0) > 0.0 by { MulPositive(4.0 * a, Value(q, t0)); }
    assert Mul(e1, e1) >= 0.0;
    assert s > 0.0;
    SquareBelow(e1, s);
    assert e0 < e1 by { assert e1 - e0 == 2.0 * a * (t1 - t0); MulPositive(2.0 * a, t1 - t0); }
    SquareAbove(e0, s);
  }

  /**
   A quadratic with `a > 0` that is positive at `t0` and negative at a
   later `t1` has a positive discriminant, and its earlier root lies
   strictly between the two.
   */
  lemma EarlierRootBetween(q: Quadratic, s: real, t0: real, t1: real)
    requires q.a > 0.0 && s >= 0.0 && Mul(s, s) == Discriminant(q)
    requires t0 < t1 && Value(q, t0) > 0.0 && Value(q, t1) < 0.0
    ensures Discriminant(q) > 0.0 && s > 0.0
    ensures t0 < EarlierRoot(q, s) < t1
  {
    SlopesBracket(q, s, t0, t1);
    var tr := EarlierRoot(q, s);
    EarlierRootSlope(q, s);
    SlopeOrder(q, t0, tr);
    SlopeOrder(q, tr, t1);
  }

  /**
   Completeness, on the polynomial: if the contact polynomial is positive
   at a time `t0` no earlier than both `lastUpdated` and negative at a
   later `t1`, the collision time is finite and lies strictly between.
   */
  lemma CollideTimeFindsSignChange(l: Particle, r: Particle, sqrt: real -> real, t0: real, t1: real)
    requires Comparable(l, r) && IsSqrt(sqrt)
    requires l.lastUpdated <= t0 && r.lastUpdated <= t0 && t0 < t1
    requires Value(Coefficients(l, r), t0) > 0.0 && Value(Coefficients(l, r), t1) < 0.0
    ensures CollideTime(l, r, sqrt).Fin?
    ensures t0 < CollideTime(l, r, sqrt).r < t1
  {
    var q, v, p := Coefficients(l, r), RelVel(l, r), RelPos(l, r);
    DotSelfNonNegative(v);
    if q.a == 0.0 {
      DotSelfZero(v);
      DotZeroLeft(v, p);
      assert false;
    }
    ValueBySlope(q, t1);
    assert 4.0 * q.a * Value(q, t1) < 0.0 by { MulPositive(4.0 * q.a, -Value(q, t1)); }
    assert Discriminant(q) > 0.0 by {
      var e := Slope(q, t1);
      assert Mul(e, e) >= 0.0;
    }
    EarlierRootBetween(q, sqrt(Discriminant(q)), t0, t1);
  }

  /**
   Completeness, in space: two spheres apart at a time `t0` no earlier
   than both `lastUpdated` and overlapping at a later `t1` get a finite
   collision time strictly between the two, so no approaching pair is
   missed.
   */
  lemma CollideTimeFindsOverlap(l: Particle, r: Particle, sqrt: real -> real, t0: real, t1: real)
    requires Comparable(l, r) && IsSqrt(sqrt)
    requires l.lastUpdated <= t0 && r.lastUpdated <= t0 && t0 < t1
    requires Dot(Gap(l, r, t0), Gap(l, r, t0)) > Mul(l.radius + r.radius, l.radius + r.radius)
    requires Dot(Gap(l, r, t1), Gap(l, r, t1)) < Mul(l.radius + r.radius, l.radius + r.radius)
    ensures CollideTime(l, r, sqrt).Fin?
    ensures t0 < CollideTime(l, r, sqrt).r < t1
  {
    ValueIsSquaredGap(l, r, t0);
    ValueIsSquaredGap(l, r, t1);
    CollideTimeFindsSignChange(l, r, sqrt, t0, t1);
  }

  /** The coefficients do not depend on the order of the pair. */
  lemma CoefficientsSymmetric(l: Particle, r: Particle)
    requires Comparable(l, r)
    ensures Coefficients(r, l) == Coefficients(l, r)
  {
    var p, v := RelPos(l, r), RelVel(l, r);
    assert RelPos(r, l) == Scale(-1.0, p);
    assert RelVel(r, l) == Scale(-1.0, v);
    DotNegNeg(v, v);
    DotNegNeg(v, p);
    DotNegNeg(p, p);
  }

  /** The collision time does not depend on the order of the pair. */
  lemma CollideTimeSymmetric(l: Particle, r: Particle, sqrt: real -> real)
    requires Comparable(l, r)
    ensures CollideTime(l, r, sqrt) == CollideTime(r, l, sqrt)
  {
    CoefficientsSymmetric(l, r);
  }

  /**
   Particles with the same velocity never collide, even when they overlap;
   in particular a particle never collides with itself.
   */
  lemma SameVelocityNeverCollides(l: Particle, r: Particle, sqrt: real -> real)
    requires Comparable(l, r)
    requires forall i :: 0 <= i < |l.velocity| ==> l.velocity[i] == r.velocity[i]
    ensures CollideTime(l, r, sqrt) == PosInf
  {
    DotZeroLeft(RelVel(l, r), RelVel(l, r));
    DotZeroLeft(RelVel(l, r), RelPos(l, r));
  }

  lemma SelfNeverCollides(p: Particle, sqrt: real -> real)
    requires Comparable(p, p)
    ensures CollideTime(p, p, sqrt) == PosInf
  {
    SameVelocityNeverCollides(p, p, sqrt);
  }

  /**
   A head-on pair on a line: radii 0.5, one at 0 moving at +1, the other at
   10 moving at -1, both as of time 0. The gap closes at 2 per unit time
   and the surfaces meet at 4.5.
   */
  lemma HeadOnCollideTime(l: Particle, r: Particle, sqrt: real -> real)
    requires IsSqrt(sqrt)
    requires l.position == [0.0] && l.velocity == [1.0] && l.radius == 0.5 && l.lastUpdated == 0.0
    requires r.position == [10.0] && r.velocity == [-1.0] && r.radius == 0.5 && r.lastUpdated == 0.0
    ensures CollideTime(l, r, sqrt) == Fin(4.5)
  {
    assert RelPos(l, r) == [-10.0];
    assert RelVel(l, r) == [2.0];
    DotSingle(2.0, 2.0);
    DotSingle(2.0, -10.0);
    DotSingle(-10.0, -10.0);
    assert Coefficients(l, r) == Quadratic(4.0, -40.0, 99.0);
    assert Discriminant(Quadratic(4.0, -40.0, 99.0)) == 16.0;
    RootUnique(sqrt(16.0), 4.0);
  }

  /** The two deltas a collision produces, for `lhs` and for `rhs`. */
  datatype DeltaPair = DeltaPair(lhs: DeltaMsg, rhs: DeltaMsg)

  /** The value-initialised volume id `{}`; the collider overwrites it. */
  function ZeroVolumeId(n: nat): (z: seq<int>)
    ensures |z| == n
    ensures forall i :: 0 <= i < n ==> z[i] == 0
  {
    seq(n, _ => 0)
  }

  /** Total momentum change of a pair of velocity changes, in dimension `i`. */
  function MomentumChange(ml: real, mr: real, dl: Vec, dr: Vec, i: nat): real
    requires i < |dl| && i < |dr|
  {
    ml * dl[i] + mr * dr[i]
  }

  /** Moving both velocities to their mass-weighted average conserves momentum. */
  lemma AverageConserves(ml: real, mr: real, vl: real, vr: real, x: real)
    requires (ml + mr) * x == ml * vl + mr * vr
    ensures ml * (x - vl) + mr * (x - vr) == 0.0
  {
    assert ml * (x - vl) + mr * (x - vr) == (ml + mr) * x - (ml * vl + mr * vr);
  }

  /** The difference of two momentum-conserving changes conserves momentum. */
  lemma DifferenceConserves(ml: real, mr: real, fl: real, fr: real, dl: real, dr: real)
    requires ml * fl + mr * fr == 0.0 && ml * dl + mr * dr == 0.0
    ensures ml * (fl - dl) + mr * (fr - dr) == 0.0
  {
    assert ml * (fl - dl) + mr * (fr - dr) == (ml * fl + mr * fr) - (ml * dl + mr * dr);
  }

  /**
   The impulse rule of `blocking_collide` for an arbitrary impulse vector:
   `lhs` changes by `-2 m_r / (m_l + m_r)` times the impulse and `rhs` by
   `2 m_l / (m_l + m_r)` times it; nothing is deferred. Equivalently, the
   relative velocity `rhs - lhs` changes by twice the impulse and momentum
   is conserved, which together fix both changes.
   */
  function ImpulseRule(l: Particle, r: Particle, impulse: Vec): (d: DeltaPair)
    requires l.mass + r.mass != 0.0
    ensures d.lhs.particleId == l.id && d.rhs.particleId == r.id
    ensures d.lhs.volumeId == ZeroVolumeId(|impulse|) == d.rhs.volumeId
    ensures DeltaValid(d.lhs, |impulse|) && DeltaValid(d.rhs, |impulse|)
    ensures d.lhs.deferredTime == PosInf && d.rhs.deferredTime == PosInf
    ensures forall i :: 0 <= i < |impulse| ==> d.lhs.deferredDv[i] == 0.0 && d.rhs.deferredDv[i] == 0.0
    ensures forall i :: 0 <= i < |impulse| ==> MomentumChange(l.mass, r.mass, d.lhs.dv, d.rhs.dv, i) == 0.0
    ensures forall i :: 0 <= i < |impulse| ==> d.rhs.dv[i] - d.lhs.dv[i] == 2.0 * impulse[i]
  {
    var n := |impulse|;
    var total := l.mass + r.mass;
    var dl := Scale(-2.0 * (r.mass / total), impulse);
    var dr := Scale(2.0 * (l.mass / total), impulse);
    assert l.mass / total + r.mass / total == 1.0;
    assert forall i :: 0 <= i < n ==> dr[i] - dl[i] == 2.0 * impulse[i] by {
      forall i | 0 <= i < n ensures dr[i] - dl[i] == 2.0 * impulse[i] {
        assert dr[i] - dl[i] == 2.0 * (l.mass / total + r.mass / total) * impulse[i];
      }
    }
    assert forall i :: 0 <= i < n ==> MomentumChange(l.mass, r.mass, dl, dr, i) == 0.0 by {
      forall i | 0 <= i < n ensures MomentumChange(l.mass, r.mass, dl, dr, i) == 0.0 {
        assert l.mass * (r.mass / total) == r.mass * (l.mass / total);
      }
    }
    DeltaPair(
      DeltaMsg(ZeroVolumeId(n), l.id, dl, Zeros(n), PosInf),
      DeltaMsg(ZeroVolumeId(n), r.id, dr, Zeros(n), PosInf))
  }

  /** The vector from `lhs` to `rhs` at their current positions. */
  function Separation(l: Particle, r: Particle): (d: Vec)
    requires Comparable(l, r)
    ensures |d| == |l.position|
  {
    Sub(r.position, l.position)
  }

  /** The distance between the centres at their current positions. */
  function Distance(l: Particle, r: Particle, sqrt: real -> real): real
    requires Comparable(l, r)
  {
    sqrt(Dot(Separation(l, r), Separation(l, r)))
  }

  /**
   The impulse as the code computes it: the relative velocity
   `rhs - lhs` multiplied componentwise by the unit separation vector.
   */
  function CodeImpulse(l: Particle, r: Particle, dist: real): (j: Vec)
    requires Comparable(l, r) && dist != 0.0
    ensures |j| == |l.position|
    ensures forall i :: 0 <= i < |j| ==>
      j[i] == (r.velocity[i] - l.velocity[i]) * ((r.position[i] - l.position[i]) / dist)
  {
    var d := Separation(l, r);
    Times(Sub(r.velocity, l.velocity), seq(|d|, i requires 0 <= i < |d| => d[i] / dist))
  }

  /** The distance between the centres does not depend on the order of the pair. */
  lemma DistanceSymmetric(l: Particle, r: Particle, sqrt: real -> real)
    requires Comparable(l, r)
    ensures Distance(r, l, sqrt) == Distance(l, r, sqrt)
  {
    assert Separation(r, l) == Scale(-1.0, Separation(l, r));
    DotNegNeg(Separation(l, r), Separation(l, r));
  }

  /**
   The code's impulse does not depend on the order of the pair: swapping
   `lhs` and `rhs` negates both the relative velocity and the separation,
   and the two signs cancel componentwise.
   */
  lemma CodeImpulseSymmetric(l: Particle, r: Particle, dist: real)
    requires Comparable(l, r) && dist != 0.0
    ensures CodeImpulse(r, l, dist) == CodeImpulse(l, r, dist)
  {
    var a, b := CodeImpulse(r, l, dist), CodeImpulse(l, r, dist);
    forall i | 0 <= i < |a| ensures a[i] == b[i] {
      var dv, dp := r.velocity[i] - l.velocity[i], r.position[i] - l.position[i];
      assert (l.position[i] - r.position[i]) / dist == -(dp / dist);
      assert a[i] == (-dv) * (-(dp / dist));
    }
  }

  /**
   `blocking_collide`: advance both particles to `t` and apply the impulse
   rule to the code's impulse. When the centres coincide the unit vector is
   undefined (a division by zero) and there is no result.
   */
  function BlockingCollide(lhs: Particle, rhs: Particle, t: real, sqrt: real -> real): (o: Option<DeltaPair>)
    requires Comparable(lhs, rhs)
    requires lhs.mass + rhs.mass != 0.0
    ensures o.None? <==> Distance(AdvanceToTime(lhs, t), AdvanceToTime(rhs, t), sqrt) == 0.0
    ensures o.Some? ==> && o.value.lhs.particleId == lhs.id && o.value.rhs.particleId == rhs.id
                        && DeltaValid(o.value.lhs, |lhs.position|) && DeltaValid(o.value.rhs, |lhs.position|)
                        && o.value.lhs.deferredTime == PosInf && o.value.rhs.deferredTime == PosInf
    ensures o.Some? ==> forall i :: 0 <= i < |lhs.position| ==>
      && o.value.lhs.deferredDv[i] == 0.0 && o.value.rhs.deferredDv[i] == 0.0
      && MomentumChange(lhs.mass, rhs.mass, o.value.lhs.dv, o.value.rhs.dv, i) == 0.0
    ensures o.Some? ==>
      var l, r := AdvanceToTime(lhs, t), AdvanceToTime(rhs, t);
      && Distance(l, r, sqrt) != 0.0
      && forall i :: 0 <= i < |lhs.position| ==>
           o.value.rhs.dv[i] - o.value.lhs.dv[i] == 2.0 * CodeImpulse(l, r, Distance(l, r, sqrt))[i]
  {
    var l := AdvanceToTime(lhs, t);
    var r := AdvanceToTime(rhs, t);
    var dist := Distance(l, r, sqrt);
    if dist == 0.0 then None
    else Some(ImpulseRule(l, r, CodeImpulse(l, r, dist)))
  }

  /**
   Swapping the arguments of `blocking_collide` negates the change each
   particle receives. Which volume's candidate holds a pair, and so which
   particle the collider passes first, therefore decides the direction of
   the velocity changes.
   */
  lemma BlockingCollideSwapped(lhs: Particle, rhs: Particle, t: real, sqrt: real -> real)
    requires Comparable(lhs, rhs)
    requires lhs.mass + rhs.mass != 0.0
    ensures BlockingCollide(rhs, lhs, t, sqrt).Some? <==> BlockingCollide(lhs, rhs, t, sqrt).Some?
    ensures BlockingCollide(lhs, rhs, t, sqrt).Some? ==>
      var o, w := BlockingCollide(lhs, rhs, t, sqrt).value, BlockingCollide(rhs, lhs, t, sqrt).value;
      forall i :: 0 <= i < |lhs.position| ==> w.lhs.dv[i] == -o.rhs.dv[i] && w.rhs.dv[i] == -o.lhs.dv[i]
  {
    var l, r := AdvanceToTime(lhs, t), AdvanceToTime(rhs, t);
    DistanceSymmetric(l, r, sqrt);
    if BlockingCollide(lhs, rhs, t, sqrt).Some? {
      var dist := Distance(l, r, sqrt);
      CodeImpulseSymmetric(l, r, dist);
      var j := CodeImpulse(l, r, dist);
      assert BlockingCollide(lhs, rhs, t, sqrt).value == ImpulseRule(l, r, j);
      assert BlockingCollide(rhs, lhs, t, sqrt).value == ImpulseRule(r, l, j);
      assert r.mass + l.mass == l.mass + r.mass;
    }
  }

  /**
   The mass-weighted average velocity of the pair: the common velocity of a
   perfectly inelastic collision.
   */
  function AverageVelocity(l: Particle, r: Particle): (a: Vec)
    requires |l.velocity| == |r.velocity| && l.mass + r.mass != 0.0
    ensures |a| == |l.velocity|
    ensures forall i :: 0 <= i < |a| ==>
      (l.mass + r.mass) * a[i] == l.mass * l.velocity[i] + r.mass * r.velocity[i]
  {
    seq(|l.velocity|, i requires 0 <= i < |l.velocity| =>
      (l.mass * l.velocity[i] + r.mass * r.velocity[i]) / (l.mass + r.mass))
  }

  /**
   The impulse rule of `blocking_collide_with_deferred`: the immediate
   change brings both particles to their average velocity, and the
   deferred change, due at `due`, is what remains of the impulse rule's
   change.
   */
  function StickRule(l: Particle, r: Particle, impulse: Vec, due: real): (d: DeltaPair)
    requires |l.velocity| == |r.velocity| == |impulse|
    requires l.mass + r.mass != 0.0
    ensures d.lhs.particleId == l.id && d.rhs.particleId == r.id
    ensures d.lhs.volumeId == ZeroVolumeId(|impulse|) == d.rhs.volumeId
    ensures DeltaValid(d.lhs, |impulse|) && DeltaValid(d.rhs, |impulse|)
    ensures d.lhs.deferredTime == Fin(due) && d.rhs.deferredTime == Fin(due)
    ensures forall i :: 0 <= i < |impulse| ==>
      && l.velocity[i] + d.lhs.dv[i] == AverageVelocity(l, r)[i]
      && r.velocity[i] + d.rhs.dv[i] == AverageVelocity(l, r)[i]
    ensures forall i :: 0 <= i < |impulse| ==>
      && d.lhs.dv[i] + d.lhs.deferredDv[i] == ImpulseRule(l, r, impulse).lhs.dv[i]
      && d.rhs.dv[i] + d.rhs.deferredDv[i] == ImpulseRule(l, r, impulse).rhs.dv[i]
    ensures forall i :: 0 <= i < |impulse| ==>
      && MomentumChange(l.mass, r.mass, d.lhs.dv, d.rhs.dv, i) == 0.0
      && MomentumChange(l.mass, r.mass, d.lhs.deferredDv, d.rhs.deferredDv, i) == 0.0
  {
    var n := |impulse|;
    var avg := AverageVelocity(l, r);
    var dl := Sub(avg, l.velocity);
    var dr := Sub(avg, r.velocity);
    var full := ImpulseRule(l, r, impulse);
    var fl := Sub(full.lhs.dv, dl);
    var fr := Sub(full.rhs.dv, dr);
    forall i | 0 <= i < n
      ensures MomentumChange(l.mass, r.mass, dl, dr, i) == 0.0
      ensures MomentumChange(l.mass, r.mass, fl, fr, i) == 0.0
    {
      AverageConserves(l.mass, r.mass, l.velocity[i], r.velocity[i], avg[i]);
      assert MomentumChange(l.mass, r.mass, full.lhs.dv, full.rhs.dv, i) == 0.0;
      DifferenceConserves(l.mass, r.mass, full.lhs.dv[i], full.rhs.dv[i], dl[i], dr[i]);
    }
    DeltaPair(
      DeltaMsg(ZeroVolumeId(n), l.id, dl, fl, Fin(due)),
      DeltaMsg(ZeroVolumeId(n), r.id, dr, fr, Fin(due)))
  }

  /**
   `blocking_collide_with_deferred`: advance both particles to `t` and apply
   the stick rule with the code's impulse, the deferred part due
   `stickTime` later (the source's default is 0.1). Like
   `BlockingCollide`, it has no result when the centres coincide.
   */
  function BlockingCollideWithDeferred(lhs: Particle, rhs: Particle, t: real, stickTime: real, sqrt: real -> real): (o: Option<DeltaPair>)
    requires Comparable(lhs, rhs)
    requires lhs.mass + rhs.mass != 0.0
    ensures o.None? <==> Distance(AdvanceToTime(lhs, t), AdvanceToTime(rhs, t), sqrt) == 0.0
    ensures o.Some? ==> && o.value.lhs.particleId == lhs.id && o.value.rhs.particleId == rhs.id
                        && DeltaValid(o.value.lhs, |lhs.position|) && DeltaValid(o.value.rhs, |lhs.position|)
                        && o.value.lhs.deferredTime == Fin(t + stickTime)
                        && o.value.rhs.deferredTime == Fin(t + stickTime)
    ensures o.Some? ==> forall i :: 0 <= i < |lhs.position| ==>
      && lhs.velocity[i] + o.value.lhs.dv[i] == rhs.velocity[i] + o.value.rhs.dv[i]
      && MomentumChange(lhs.mass, rhs.mass, o.value.lhs.dv, o.value.rhs.dv, i) == 0.0
      && MomentumChange(lhs.mass, rhs.mass, o.value.lhs.deferredDv, o.value.rhs.deferredDv, i) == 0.0
  {
    var l := AdvanceToTime(lhs, t);
    var r := AdvanceToTime(rhs, t);
    var dist := Distance(l, r, sqrt);
    if dist == 0.0 then None
    else Some(StickRule(l, r, CodeImpulse(l, r, dist), t + stickTime))
  }

  /**
   The two rules agree on everything but timing: each particle's immediate
   and deferred changes under the deferred rule add up to its change under
   `blocking_collide`, and both rules fail on the same inputs.
   */
  lemma DeferredSplitsImpulse(lhs: Particle, rhs: Particle, t: real, stickTime: real, sqrt: real -> real)
    requires Comparable(lhs, rhs)
    requires lhs.mass + rhs.mass != 0.0
    ensures BlockingCollideWithDeferred(lhs, rhs, t, stickTime, sqrt).Some? <==> BlockingCollide(lhs, rhs, t, sqrt).Some?
    ensures BlockingCollide(lhs, rhs, t, sqrt).Some? ==>
      var s := BlockingCollideWithDeferred(lhs, rhs, t, stickTime, sqrt).value;
      var b := BlockingCollide(lhs, rhs, t, sqrt).value;
      forall i :: 0 <= i < |lhs.position| ==>
        && s.lhs.dv[i] + s.lhs.deferredDv[i] == b.lhs.dv[i]
        && s.rhs.dv[i] + s.rhs.deferredDv[i] == b.rhs.dv[i]
  {
  }

  /**
   The head-on pair of `HeadOnCollideTime` at its contact time 4.5: centres
   at 4.5 and 5.5, unit mass each. The code's impulse is `-2`, so `lhs`
   changes by `+2` and `rhs` by `-2`: as written, the velocities go from
   `+1` and `-1` to `+3` and `-3`.
   */
  lemma HeadOnImpulse(lhs: Particle, rhs: Particle, sqrt: real -> real)
    requires IsSqrt(sqrt)
    requires lhs.position == [0.0] && lhs.velocity == [1.0] && lhs.mass == 1.0 && lhs.lastUpdated == 0.0
    requires rhs.position == [10.0] && rhs.velocity == [-1.0] && rhs.mass == 1.0 && rhs.lastUpdated == 0.0
    ensures BlockingCollide(lhs, rhs, 4.5, sqrt).Some?
    ensures BlockingCollide(lhs, rhs, 4.5, sqrt).value.lhs.dv == [2.0]
    ensures BlockingCollide(lhs, rhs, 4.5, sqrt).value.rhs.dv == [-2.0]
  {
    var l := AdvanceToTime(lhs, 4.5);
    var r := AdvanceToTime(rhs, 4.5);
    assert l.position == [4.5];
    assert r.position == [5.5];
    assert Separation(l, r) == [1.0];
    DotSingle(1.0, 1.0);
    RootUnique(sqrt(1.0), 1.0);
    assert Distance(l, r, sqrt) == 1.0;
    assert CodeImpulse(l, r, 1.0) == [-2.0];
  }
}
