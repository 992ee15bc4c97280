/**
 Boundary crossing: the wall-exit candidate of a particle in a rectangular
 volume and the neighbouring volume it moves to, plus the message that
 carries a particle across the boundary.
 */
module Moving {
  import opened ExtReal
  import opened Particles

  /** `particle_moving_message`: a particle in flight to `destination`. */
  datatype MoveMsg = MoveMsg(destination: seq<int>, particle: Particle)

  /**
   The box a volume occupies: per dimension one corner coordinate and a
   signed extent that may be infinite (an open boundary).
   */
  predicate BoxFits(p: Particle, corner: seq<real>, size: seq<Ext>) {
    |p.position| == |p.velocity| == |corner| == |size|
  }

  /**
   The wall in the positive direction of dimension `i`: the larger of the
   corner and the corner plus the extent, so the wall of an open boundary
   is `PosInf`.
   */
  function UpperWall(corner: seq<real>, size: seq<Ext>, i: nat): (w: Ext)
    requires i < |corner| == |size|
    ensures w != NegInf
    ensures Le(Fin(corner[i]), w) && Le(Shift(corner[i], size[i]), w)
    ensures w == Fin(corner[i]) || w == Shift(corner[i], size[i])
  {
    Max(Fin(corner[i]), Shift(corner[i], size[i]))
  }

  /**
   The wall in the negative direction of dimension `i`: the smaller of the
   corner and the corner plus the extent.
   */
  function LowerWall(corner: seq<real>, size: seq<Ext>, i: nat): (w: Ext)
    requires i < |corner| == |size|
    ensures w != PosInf
    ensures Le(w, Fin(corner[i])) && Le(w, Shift(corner[i], size[i]))
    ensures w == Fin(corner[i]) || w == Shift(corner[i], size[i])
  {
    Min(Fin(corner[i]), Shift(corner[i], size[i]))
  }

  /**
   Whether dimension `i` offers an exit: the particle moves along it, the
   wall ahead is finite, and the particle is not already beyond that wall.
   */
  predicate Exits(p: Particle, corner: seq<real>, size: seq<Ext>, i: nat)
    requires BoxFits(p, corner, size) && i < |corner|
  {
    if p.velocity[i] > 0.0 then
      var w := UpperWall(corner, size, i);
      !(Lt(w, Fin(p.position[i])) || w == PosInf)
    else if p.velocity[i] < 0.0 then
      var w := LowerWall(corner, size, i);
      !(Lt(Fin(p.position[i]), w) || w == NegInf)
    else false
  }

  /**
   The exit candidate of dimension `i`: `(wall - pos) / vel` towards the
   upper wall and, as the code writes it, `(pos - wall) / vel` towards the
   lower wall. A dimension that offers no exit contributes `PosInf`, which
   leaves every minimum unchanged exactly as the code's `continue` does.
   */
  function Candidate(p: Particle, corner: seq<real>, size: seq<Ext>, i: nat): (t: Ext)
    requires BoxFits(p, corner, size) && i < |corner|
    ensures t != NegInf
    ensures t.Fin? <==> Exits(p, corner, size, i)
  {
    if !Exits(p, corner, size, i) then PosInf
    else if p.velocity[i] > 0.0 then
      Fin((UpperWall(corner, size, i).r - p.position[i]) / p.velocity[i])
    else
      Fin((p.position[i] - LowerWall(corner, size, i).r) / p.velocity[i])
  }

  /** The running minimum of `move_out_time` after the first `n` dimensions. */
  function ExitScan(p: Particle, corner: seq<real>, size: seq<Ext>, n: nat): (t: Ext)
    requires BoxFits(p, corner, size) && n <= |corner|
    ensures t != NegInf
  {
    if n == 0 then PosInf
    else Min(Candidate(p, corner, size, n - 1), ExitScan(p, corner, size, n - 1))
  }

  /**
   The running minimum is the least candidate of the first `n` dimensions,
   attained by one of them, and `PosInf` exactly when none offers an exit.
   */
  lemma {:induction false} ExitScanIsLeast(p: Particle, corner: seq<real>, size: seq<Ext>, n: nat)
    requires BoxFits(p, corner, size) && n <= |corner|
    ensures forall i :: 0 <= i < n ==> Le(ExitScan(p, corner, size, n), Candidate(p, corner, size, i))
    ensures ExitScan(p, corner, size, n) == PosInf ||
      exists i :: 0 <= i < n && ExitScan(p, corner, size, n) == Candidate(p, corner, size, i)
    ensures ExitScan(p, corner, size, n) == PosInf <==> forall i :: 0 <= i < n ==> !Exits(p, corner, size, i)
    decreases n
  {
    if n > 0 {
      ExitScanIsLeast(p, corner, size, n - 1);
    }
  }

  /**
   `move_out_time`: the least exit candidate over all dimensions, attained
   by one of them, and never (`PosInf`) exactly when no dimension offers an
   exit.
   */
  function MoveOutTime(p: Particle, corner: seq<real>, size: seq<Ext>): (t: Ext)
    requires BoxFits(p, corner, size)
    ensures t != NegInf
    ensures forall i :: 0 <= i < |corner| ==> Le(t, Candidate(p, corner, size, i))
    ensures t == PosInf || exists i :: 0 <= i < |corner| && t == Candidate(p, corner, size, i)
    ensures t == PosInf <==> forall i :: 0 <= i < |corner| ==> !Exits(p, corner, size, i)
  {
    ExitScanIsLeast(p, corner, size, |corner|);
    ExitScan(p, corner, size, |corner|)
  }

  /** The coordinate step of a move along dimension `i`. */
  function Step(p: Particle, i: nat): int
    requires i < |p.velocity|
  {
    if p.velocity[i] > 0.0 then 1 else -1
  }

  /**
   The destination after the first `n` dimensions: a strictly smaller
   candidate replaces the destination by the volume id stepped along that
   dimension.
   */
  function DestScan(p: Particle, corner: seq<real>, size: seq<Ext>, volumeId: seq<int>, n: nat): (d: seq<int>)
    requires BoxFits(p, corner, size) && |volumeId| == |corner| && n <= |corner|
    ensures |d| == |volumeId|
  {
    if n == 0 then volumeId
    else
      var tt := Candidate(p, corner, size, n - 1);
      if Lt(tt, ExitScan(p, corner, size, n - 1)) then
        volumeId[n - 1 := volumeId[n - 1] + Step(p, n - 1)]
      else
        DestScan(p, corner, size, volumeId, n - 1)
  }

  /**
   The first of the first `n` dimensions whose candidate attains the
   running minimum, or -1 when none offers an exit: the dimension the
   destination scan steps along.
   */
  function ExitDim(p: Particle, corner: seq<real>, size: seq<Ext>, n: nat): (i: int)
    requires BoxFits(p, corner, size) && n <= |corner|
    ensures -1 <= i < n
  {
    if n == 0 then -1
    else if Lt(Candidate(p, corner, size, n - 1), ExitScan(p, corner, size, n - 1)) then n - 1
    else ExitDim(p, corner, size, n - 1)
  }

  /** The destination scan steps along `ExitDim`, or keeps the volume id when there is none. */
  lemma {:induction false} DestScanSteps(p: Particle, corner: seq<real>, size: seq<Ext>, volumeId: seq<int>, n: nat)
    requires BoxFits(p, corner, size) && |volumeId| == |corner| && n <= |corner|
    ensures ExitDim(p, corner, size, n) == -1 ==> DestScan(p, corner, size, volumeId, n) == volumeId
    ensures ExitDim(p, corner, size, n) >= 0 ==> (
      var i := ExitDim(p, corner, size, n);
      DestScan(p, corner, size, volumeId, n) == volumeId[i := volumeId[i] + Step(p, i)])
    decreases n
  {
    if n > 0 {
      DestScanSteps(p, corner, size, volumeId, n - 1);
    }
  }

  /**
   `ExitDim` is -1 exactly when no dimension offers an exit, and otherwise
   the first dimension whose candidate is the running minimum.
   */
  lemma {:induction false} ExitDimIsFirstLeast(p: Particle, corner: seq<real>, size: seq<Ext>, n: nat)
    requires BoxFits(p, corner, size) && n <= |corner|
    ensures ExitDim(p, corner, size, n) == -1 <==> ExitScan(p, corner, size, n) == PosInf
    ensures ExitDim(p, corner, size, n) >= 0 ==>
      ExitScan(p, corner, size, n) == Candidate(p, corner, size, ExitDim(p, corner, size, n))
    ensures forall j :: 0 <= j < ExitDim(p, corner, size, n) ==>
      Lt(ExitScan(p, corner, size, n), Candidate(p, corner, size, j))
    decreases n
  {
    if n > 0 {
      var tt := Candidate(p, corner, size, n - 1);
      var prev := ExitScan(p, corner, size, n - 1);
      ExitDimIsFirstLeast(p, corner, size, n - 1);
      if Lt(tt, prev) {
        ExitScanIsLeast(p, corner, size, n - 1);
        assert ExitScan(p, corner, size, n) == tt;
      } else {
        assert ExitScan(p, corner, size, n) == prev;
      }
    }
  }

  /**
   The destination after `n` dimensions is the volume id itself exactly
   when no exit was found, and otherwise the id stepped along the first
   dimension attaining the running minimum.
   */
  lemma DestScanIsFirstLeast(p: Particle, corner: seq<real>, size: seq<Ext>, volumeId: seq<int>, n: nat)
    requires BoxFits(p, corner, size) && |volumeId| == |corner| && n <= |corner|
    ensures DestScan(p, corner, size, volumeId, n) == volumeId <==> ExitScan(p, corner, size, n) == PosInf
    ensures DestScan(p, corner, size, volumeId, n) != volumeId ==> exists i :: (
      && 0 <= i < n
      && DestScan(p, corner, size, volumeId, n) == volumeId[i := volumeId[i] + Step(p, i)]
      && ExitScan(p, corner, size, n) == Candidate(p, corner, size, i)
      && forall j :: 0 <= j < i ==> Lt(ExitScan(p, corner, size, n), Candidate(p, corner, size, j)))
  {
    var i := ExitDim(p, corner, size, n);
    DestScanSteps(p, corner, size, volumeId, n);
    ExitDimIsFirstLeast(p, corner, size, n);
    if i >= 0 {
      var d := DestScan(p, corner, size, volumeId, n);
      assert d[i] != volumeId[i];
    }
  }

  /**
   `move_out_destination`: the volume id itself exactly when the particle
   never leaves; otherwise the id differs in one coordinate, stepped by one
   in the direction of motion, of the first dimension attaining the least
   candidate.
   */
  function MoveOutDestination(p: Particle, corner: seq<real>, size: seq<Ext>, volumeId: seq<int>): (d: seq<int>)
    requires BoxFits(p, corner, size) && |volumeId| == |corner|
    ensures |d| == |volumeId|
    ensures d == volumeId <==> MoveOutTime(p, corner, size) == PosInf
    ensures d != volumeId ==> exists i :: (
      && 0 <= i < |corner|
      && d == volumeId[i := volumeId[i] + Step(p, i)]
      && MoveOutTime(p, corner, size) == Candidate(p, corner, size, i)
      && forall j :: 0 <= j < i ==> Lt(MoveOutTime(p, corner, size), Candidate(p, corner, size, j)))
  {
    DestScanIsFirstLeast(p, corner, size, volumeId, |corner|);
    DestScan(p, corner, size, volumeId, |corner|)
  }

  /** A particle at rest never leaves, and its destination is its own volume. */
  lemma AtRestNeverLeaves(p: Particle, corner: seq<real>, size: seq<Ext>, volumeId: seq<int>)
    requires BoxFits(p, corner, size) && |volumeId| == |corner|
    requires forall i :: 0 <= i < |p.velocity| ==> p.velocity[i] == 0.0
    ensures MoveOutTime(p, corner, size) == PosInf
    ensures MoveOutDestination(p, corner, size, volumeId) == volumeId
  {
    assert forall i :: 0 <= i < |corner| ==> !Exits(p, corner, size, i);
  }

  /** A dimension whose wall ahead is infinite contributes no candidate. */
  lemma OpenWallNoCandidate(p: Particle, corner: seq<real>, size: seq<Ext>, i: nat)
    requires BoxFits(p, corner, size) && i < |corner|
    requires p.velocity[i] > 0.0 ==> UpperWall(corner, size, i) == PosInf
    requires p.velocity[i] < 0.0 ==> LowerWall(corner, size, i) == NegInf
    ensures Candidate(p, corner, size, i) == PosInf
  {
  }

  /** A dimension in which the particle is already beyond the wall ahead is skipped. */
  lemma BeyondWallNoCandidate(p: Particle, corner: seq<real>, size: seq<Ext>, i: nat)
    requires BoxFits(p, corner, size) && i < |corner|
    requires p.velocity[i] > 0.0 ==> Lt(UpperWall(corner, size, i), Fin(p.position[i]))
    requires p.velocity[i] < 0.0 ==> Lt(Fin(p.position[i]), LowerWall(corner, size, i))
    ensures Candidate(p, corner, size, i) == PosInf
  {
  }

  /** Towards the upper wall the candidate is the non-negative time to reach it. */
  lemma UpperCandidateAhead(p: Particle, corner: seq<real>, size: seq<Ext>, i: nat)
    requires BoxFits(p, corner, size) && i < |corner|
    requires p.velocity[i] > 0.0
    requires UpperWall(corner, size, i).Fin? && p.position[i] <= UpperWall(corner, size, i).r
    ensures Candidate(p, corner, size, i).Fin?
    ensures Candidate(p, corner, size, i).r >= 0.0
    ensures p.position[i] + p.velocity[i] * Candidate(p, corner, size, i).r == UpperWall(corner, size, i).r
  {
    var w := UpperWall(corner, size, i).r;
    var v := p.velocity[i];
    var x := p.position[i];
    assert (w - x) / v >= 0.0;
    assert v * ((w - x) / v) == w - x;
  }

  /**
   Towards the lower wall the code's candidate `(pos - wall) / vel` is never
   positive: it is the negated time to reach the wall.
   */
  lemma LowerCandidateNotAhead(p: Particle, corner: seq<real>, size: seq<Ext>, i: nat)
    requires BoxFits(p, corner, size) && i < |corner|
    requires p.velocity[i] < 0.0
    requires LowerWall(corner, size, i).Fin? && LowerWall(corner, size, i).r <= p.position[i]
    ensures Candidate(p, corner, size, i).Fin?
    ensures Candidate(p, corner, size, i).r <= 0.0
    ensures p.position[i] - p.velocity[i] * Candidate(p, corner, size, i).r == LowerWall(corner, size, i).r
  {
    var w := LowerWall(corner, size, i).r;
    var v := p.velocity[i];
    var x := p.position[i];
    assert (x - w) / v <= 0.0;
    assert v * ((x - w) / v) == x - w;
  }

  /**
   One dimension, corner 1, extent 1, position 1.5, velocity 2: the wall at
   2 is reached after 0.25 and the particle moves to the next volume up.
   */
  lemma ExitExample(p: Particle, k: int)
    requires p.position == [1.5] && p.velocity == [2.0]
    ensures MoveOutTime(p, [1.0], [Fin(1.0)]) == Fin(0.25)
    ensures MoveOutDestination(p, [1.0], [Fin(1.0)], [k]) == [k + 1]
  {
    assert UpperWall([1.0], [Fin(1.0)], 0) == Fin(2.0);
    assert Exits(p, [1.0], [Fin(1.0)], 0);
    assert Candidate(p, [1.0], [Fin(1.0)], 0) == Fin(0.25);
    assert ExitScan(p, [1.0], [Fin(1.0)], 0) == PosInf;
    assert ExitScan(p, [1.0], [Fin(1.0)], 1) == Fin(0.25);
  }
}
