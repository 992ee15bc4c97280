/**
 Velocity-delta messages: an immediate velocity change plus a deferred one,
 addressed to a particle in a given volume.
 */
module Deltas {
  import opened ExtReal
  import opened Vectors
  import opened Particles

  /** `particle_delta_message`. */
  datatype DeltaMsg = DeltaMsg(
    volumeId: seq<int>,
    particleId: nat,
    dv: Vec,
    deferredDv: Vec,
    deferredTime: Ext)

  /** Both vectors have `dims` components. */
  predicate DeltaHasDims(d: DeltaMsg, dims: nat) {
    |d.dv| == dims && |d.deferredDv| == dims
  }

  /** The well-formed deltas: right dimension, deferred time real or never. */
  predicate DeltaValid(d: DeltaMsg, dims: nat) {
    DeltaHasDims(d, dims) && d.deferredTime != NegInf
  }

  /**
   `apply_delta`: add the immediate change to the velocity, accumulate the
   deferred change, and keep the earlier of the two deferred times. Neither
   the position nor `lastUpdated` moves.
   */
  function ApplyDelta(p: Particle, d: DeltaMsg): (r: Particle)
    requires HasDims(p, |p.position|) && DeltaHasDims(d, |p.position|)
    ensures r == p.(velocity := r.velocity, deferredDv := r.deferredDv, deferredTime := r.deferredTime)
    ensures HasDims(r, |p.position|)
    ensures forall i :: 0 <= i < |p.velocity| ==> r.velocity[i] == p.velocity[i] + d.dv[i]
    ensures forall i :: 0 <= i < |p.deferredDv| ==>
      r.deferredDv[i] == p.deferredDv[i] + d.deferredDv[i]
    ensures Le(r.deferredTime, p.deferredTime) && Le(r.deferredTime, d.deferredTime)
    ensures r.deferredTime == p.deferredTime || r.deferredTime == d.deferredTime
  {
    p.(velocity := Plus(p.velocity, d.dv),
       deferredDv := Plus(p.deferredDv, d.deferredDv),
       deferredTime := Min(p.deferredTime, d.deferredTime))
  }

  /** Two deltas applied in either order give the same particle. */
  lemma ApplyDeltaCommutes(p: Particle, d1: DeltaMsg, d2: DeltaMsg)
    requires HasDims(p, |p.position|)
    requires DeltaHasDims(d1, |p.position|) && DeltaHasDims(d2, |p.position|)
    ensures ApplyDelta(ApplyDelta(p, d1), d2) == ApplyDelta(ApplyDelta(p, d2), d1)
  {
    var a := ApplyDelta(ApplyDelta(p, d1), d2);
    var b := ApplyDelta(ApplyDelta(p, d2), d1);
    assert a.velocity == b.velocity;
    assert a.deferredDv == b.deferredDv;
  }

  /** The delta that changes nothing and schedules nothing. */
  function NoDelta(volumeId: seq<int>, particleId: nat, dims: nat): (d: DeltaMsg)
    ensures DeltaValid(d, dims)
  {
    DeltaMsg(volumeId, particleId, Zeros(dims), Zeros(dims), PosInf)
  }

  /** Applying the empty delta is the identity. */
  lemma ApplyNoDelta(p: Particle, volumeId: seq<int>)
    requires HasDims(p, |p.position|)
    ensures ApplyDelta(p, NoDelta(volumeId, p.id, |p.position|)) == p
  {
    var r := ApplyDelta(p, NoDelta(volumeId, p.id, |p.position|));
    assert r.velocity == p.velocity;
    assert r.deferredDv == p.deferredDv;
  }

  /** A valid delta keeps a valid particle valid. */
  lemma ApplyDeltaValid(p: Particle, d: DeltaMsg, dims: nat)
    requires Valid(p, dims) && DeltaValid(d, dims)
    ensures Valid(ApplyDelta(p, d), dims)
  {
  }
}
