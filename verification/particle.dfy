/**
 The particle record and its two kinematic operations: linear
 extrapolation to a later time, and flushing the pending (deferred)
 velocity change.
 */
module Particles {
  import opened ExtReal
  import opened Vectors

  /**
   One particle. `position` is valid as of `lastUpdated`; `deferredDv` is a
   velocity change that takes effect at `deferredTime`, where `PosInf`
   means that none is pending.
   */
  datatype Particle = Particle(
    lastUpdated: real,
    id: nat,
    species: nat,
    mass: real,
    radius: real,
    position: Vec,
    velocity: Vec,
    deferredDv: Vec,
    deferredTime: Ext)

  /** All three vectors have `dims` components (`std::array<REAL, DIMS>`). */
  predicate HasDims(p: Particle, dims: nat) {
    |p.position| == dims && |p.velocity| == dims && |p.deferredDv| == dims
  }

  /**
   The physical well-formedness the simulator relies on: the right number
   of components, a positive mass, and a deferred time that is a real time
   or "never".
   */
  predicate Valid(p: Particle, dims: nat) {
    HasDims(p, dims) && p.mass > 0.0 && p.deferredTime != NegInf
  }

  /** The position the particle reaches at time `t` moving at its velocity. */
  function PositionAt(p: Particle, t: real): (x: Vec)
    requires |p.velocity| == |p.position|
    ensures |x| == |p.position|
    ensures forall i :: 0 <= i < |x| ==>
      x[i] == p.position[i] + p.velocity[i] * (t - p.lastUpdated)
  {
    Plus(p.position, Scale(t - p.lastUpdated, p.velocity))
  }

  /** `advance_to_time`: extrapolate the position linearly to time `t`. */
  function AdvanceToTime(p: Particle, t: real): (r: Particle)
    requires |p.velocity| == |p.position|
    ensures r.lastUpdated == t
    ensures r == p.(position := r.position, lastUpdated := t)
    ensures |r.position| == |p.position|
    ensures forall i :: 0 <= i < |p.position| ==>
      r.position[i] == p.position[i] + p.velocity[i] * (t - p.lastUpdated)
  {
    p.(position := PositionAt(p, t), lastUpdated := t)
  }

  /** Advancing to the time the particle is already at changes nothing. */
  lemma AdvanceToNow(p: Particle)
    requires |p.velocity| == |p.position|
    ensures AdvanceToTime(p, p.lastUpdated) == p
  {
    var r := AdvanceToTime(p, p.lastUpdated);
    assert r.position == p.position;
  }

  /** Advancing to `t1` and then to `t2` is advancing to `t2`. */
  lemma AdvanceCompose(p: Particle, t1: real, t2: real)
    requires |p.velocity| == |p.position|
    ensures AdvanceToTime(AdvanceToTime(p, t1), t2) == AdvanceToTime(p, t2)
  {
    var q := AdvanceToTime(p, t1);
    var a := AdvanceToTime(q, t2);
    var b := AdvanceToTime(p, t2);
    forall i | 0 <= i < |p.position|
      ensures a.position[i] == b.position[i]
    {
      var v := p.velocity[i];
      assert v * (t1 - p.lastUpdated) + v * (t2 - t1) == v * (t2 - p.lastUpdated);
    }
    assert a.position == b.position;
  }

  /**
   `apply_dv`: move to the deferred time with the old velocity, add the
   deferred change to the velocity, and clear it. The source calls this
   only when the deferred time has been reached, so it is finite.
   */
  function ApplyDv(p: Particle): (r: Particle)
    requires HasDims(p, |p.position|)
    requires p.deferredTime.Fin?
    ensures r.lastUpdated == p.deferredTime.r
    ensures r.position == AdvanceToTime(p, p.deferredTime.r).position
    ensures HasDims(r, |p.position|)
    ensures forall i :: 0 <= i < |p.velocity| ==>
      r.velocity[i] == p.velocity[i] + p.deferredDv[i]
    ensures forall i :: 0 <= i < |p.deferredDv| ==> r.deferredDv[i] == 0.0
    ensures r.deferredTime == PosInf
    ensures r.id == p.id && r.species == p.species
    ensures r.mass == p.mass && r.radius == p.radius
  {
    var q := AdvanceToTime(p, p.deferredTime.r);
    q.(velocity := Plus(q.velocity, q.deferredDv),
       deferredDv := Zeros(|q.deferredDv|),
       deferredTime := PosInf)
  }

  /**
   Flushing never loses a correction: the velocity a particle will have
   once every pending change has applied is the same before and after.
   */
  lemma ApplyDvKeepsEventualVelocity(p: Particle)
    requires HasDims(p, |p.position|)
    requires p.deferredTime.Fin?
    ensures Plus(ApplyDv(p).velocity, ApplyDv(p).deferredDv) == Plus(p.velocity, p.deferredDv)
  {
  }
}
