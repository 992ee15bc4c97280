/**
 The blocking collider: a component that keeps, per volume, the earliest
 collision it has found between a particle of that volume and a particle
 of the same or an adjacent volume, rescans the volumes that announce a
 change, and at each collision's time emits the two velocity deltas that
 resolve it.
 */
module Collider {
  import opened ExtReal
  import opened Ordering
  import opened Particles
  import opened Deltas
  import opened Announcements
  import opened CollisionRules
  import opened Results

  /** `(size_t)(-1)`: the particle id of a candidate that holds no collision. */
  const NoParticle: nat := 0xFFFF_FFFF_FFFF_FFFF

  /**
   The entry the collider keeps for one volume: the volume's last announced
   particles, and its best collision so far, between particle `lhs` of this
   volume and particle `rhs` of volume `rhsVolume`, at `time` (`PosInf`
   for none).
   */
  datatype Candidate = Candidate(
    snapshot: map<nat, Particle>,
    lhs: nat,
    rhs: nat,
    rhsVolume: seq<int>,
    time: Ext)

  type Volumes = map<seq<int>, Candidate>

  /** `blocking_collider_model::state_type`. */
  datatype ColliderState = ColliderState(
    globalTime: real,
    pendingDeltas: seq<DeltaMsg>,
    volumes: Volumes,
    nextInternalTime: Ext)

  /**
   The initial state: time 0, nothing pending, no volume known, and a
   value-initialised (zero) next internal time.
   */
  function Init(): (s: ColliderState)
    ensures s.volumes == map[] && s.pendingDeltas == []
    ensures s.globalTime == 0.0 && s.nextInternalTime == Fin(0.0)
  {
    ColliderState(0.0, [], map[], Fin(0.0))
  }

  /**
   The collision rules the collider applies: `blocking_collide_time` and
   `blocking_collide`. The transitions take them as values so that their
   reasoning does not depend on the geometry of the rules.
   */
  datatype Physics = Physics(
    time: (Particle, Particle) -> Ext,
    collide: (Particle, Particle, real) -> Option<DeltaPair>)

  /** `blocking_collide_time` on every pair; pairs of the wrong shape never collide. */
  function PairTime(l: Particle, r: Particle, sqrt: real -> real): Ext {
    if Comparable(l, r) then CollideTime(l, r, sqrt) else PosInf
  }

  /** `blocking_collide` on every pair; pairs of the wrong shape have no result. */
  function PairCollide(l: Particle, r: Particle, t: real, sqrt: real -> real): Option<DeltaPair> {
    if Comparable(l, r) && l.mass + r.mass != 0.0 then BlockingCollide(l, r, t, sqrt) else None
  }

  /** The collision rules of `blocking_collider_rules` for a given square root. */
  function PhysicsOf(sqrt: real -> real): Physics {
    Physics((l, r) => PairTime(l, r, sqrt), (l, r, t) => PairCollide(l, r, t, sqrt))
  }

  /** On well-formed particles the collider's rules are those of `blocking_collider_rules`. */
  lemma PhysicsOfIsRules(sqrt: real -> real, l: Particle, r: Particle, t: real, dims: nat)
    requires Valid(l, dims) && Valid(r, dims)
    ensures Comparable(l, r) && l.mass + r.mass != 0.0
    ensures PhysicsOf(sqrt).time(l, r) == CollideTime(l, r, sqrt)
    ensures PhysicsOf(sqrt).collide(l, r, t) == BlockingCollide(l, r, t, sqrt)
  {
  }

  /**
   Two volumes are scanned together when every coordinate of their ids
   differs by at most one: the volume itself and all its neighbours,
   diagonal ones included.
   */
  predicate Near(a: seq<int>, b: seq<int>) {
    |a| == |b| && forall i :: 0 <= i < |a| ==> a[i] == b[i] + 1 || a[i] == b[i] || a[i] == b[i] - 1
  }

  lemma NearReflexive(a: seq<int>)
    ensures Near(a, a)
  {
  }

  lemma NearSymmetric(a: seq<int>, b: seq<int>)
    ensures Near(a, b) <==> Near(b, a)
  {
  }

  /** Near is exactly a coordinate distance of at most one. */
  lemma NearIsChebyshevOne(a: seq<int>, b: seq<int>)
    requires |a| == |b|
    ensures Near(a, b) <==> forall i :: 0 <= i < |a| ==> -1 <= a[i] - b[i] <= 1
  {
  }

  /** A diagonal neighbour is near; a volume two steps away is not. */
  lemma NearExamples()
    ensures Near([0, 0], [1, -1])
    ensures !Near([0, 0], [2, 0])
  {
    var a: seq<int>, b: seq<int> := [0, 0], [2, 0];
    assert a[0] != b[0] + 1 && a[0] != b[0] && a[0] != b[0] - 1;
  }

  /** The entry of a volume the collider has not seen before. */
  function Fresh(a: Announcement): (c: Candidate)
    ensures c.snapshot == a.snapshot && c.time == PosInf
    ensures c.lhs == NoParticle && c.rhs == NoParticle
    ensures |c.rhsVolume| == |a.volumeId| && forall i :: 0 <= i < |a.volumeId| ==> c.rhsVolume[i] == 0
  {
    Candidate(a.snapshot, NoParticle, NoParticle, ZeroVolumeId(|a.volumeId|), PosInf)
  }

  /**
   Record one announcement: a new volume gets a fresh entry, a known one
   has its snapshot replaced and keeps its candidate.
   */
  function Register(vols: Volumes, a: Announcement): (r: Volumes)
    ensures r.Keys == vols.Keys + {a.volumeId}
    ensures forall k | k in vols && k != a.volumeId :: r[k] == vols[k]
    ensures r[a.volumeId] ==
      if a.volumeId in vols then vols[a.volumeId].(snapshot := a.snapshot) else Fresh(a)
  {
    if a.volumeId in vols then vols[a.volumeId := vols[a.volumeId].(snapshot := a.snapshot)]
    else vols[a.volumeId := Fresh(a)]
  }

  /** The announcements, recorded in order. */
  function RegisterAll(vols: Volumes, msgs: seq<Announcement>): Volumes
    decreases |msgs|
  {
    if msgs == [] then vols
    else Register(RegisterAll(vols, msgs[..|msgs| - 1]), msgs[|msgs| - 1])
  }

  /** The ids of the announcing volumes. */
  function Announced(msgs: seq<Announcement>): set<seq<int>> {
    set i | 0 <= i < |msgs| :: msgs[i].volumeId
  }

  /** Announcing one more volume adds its id to the announced set. */
  lemma AnnouncedSnoc(msgs: seq<Announcement>)
    requires msgs != []
    ensures Announced(msgs) == Announced(msgs[..|msgs| - 1]) + {msgs[|msgs| - 1].volumeId}
  {
    var n := |msgs| - 1;
    forall k | k in Announced(msgs) ensures k in Announced(msgs[..n]) + {msgs[n].volumeId} {
      var i :| 0 <= i < |msgs| && msgs[i].volumeId == k;
      if i < n {
        assert msgs[..n][i] == msgs[i];
      }
    }
  }

  /** After recording the announcements the known volumes are the old ones and the announcing ones. */
  lemma {:induction false} RegisterAllKeys(vols: Volumes, msgs: seq<Announcement>)
    ensures RegisterAll(vols, msgs).Keys == vols.Keys + Announced(msgs)
    decreases |msgs|
  {
    if msgs != [] {
      RegisterAllKeys(vols, msgs[..|msgs| - 1]);
      AnnouncedSnoc(msgs);
    }
  }

  /**
   After recording the announcements the known volumes are the old ones and
   the announcing ones; a volume that did not announce keeps its entry, and
   a known volume keeps its candidate whatever its snapshot.
   */
  lemma {:induction false} RegisterAllKeeps(vols: Volumes, msgs: seq<Announcement>)
    ensures RegisterAll(vols, msgs).Keys == vols.Keys + Announced(msgs)
    ensures forall k | k in vols && k !in Announced(msgs) :: RegisterAll(vols, msgs)[k] == vols[k]
    ensures forall k | k in vols :: RegisterAll(vols, msgs)[k] == vols[k].(snapshot := RegisterAll(vols, msgs)[k].snapshot)
    decreases |msgs|
  {
    if msgs != [] {
      RegisterAllKeeps(vols, msgs[..|msgs| - 1]);
      AnnouncedSnoc(msgs);
    }
  }

  /** A volume new to the collider starts with no candidate. */
  lemma {:induction false} RegisterAllFresh(vols: Volumes, msgs: seq<Announcement>)
    ensures forall k | k in Announced(msgs) && k !in vols ::
      k in RegisterAll(vols, msgs)
      && RegisterAll(vols, msgs)[k].time == PosInf
      && RegisterAll(vols, msgs)[k].lhs == NoParticle && RegisterAll(vols, msgs)[k].rhs == NoParticle
    decreases |msgs|
  {
    if msgs != [] {
      RegisterAllFresh(vols, msgs[..|msgs| - 1]);
      RegisterAllKeeps(vols, msgs[..|msgs| - 1]);
      AnnouncedSnoc(msgs);
    }
  }

  /** Each announcing volume holds the snapshot of its last announcement. */
  lemma {:induction false} RegisterAllSnapshot(vols: Volumes, msgs: seq<Announcement>, i: nat)
    requires i < |msgs|
    requires forall j | i < j < |msgs| :: msgs[j].volumeId != msgs[i].volumeId
    ensures msgs[i].volumeId in RegisterAll(vols, msgs)
    ensures RegisterAll(vols, msgs)[msgs[i].volumeId].snapshot == msgs[i].snapshot
    decreases |msgs|
  {
    var n := |msgs| - 1;
    if i < n {
      assert msgs[..n][i] == msgs[i];
      assert forall j | i < j < n :: msgs[..n][j] == msgs[j];
      RegisterAllSnapshot(vols, msgs[..n], i);
    }
  }

  /**
   The announcing volume ids after `sort` then `unique`: each announcing id
   exactly once, in strictly ascending order.
   */
  function DirtyIds(msgs: seq<Announcement>): (d: seq<seq<int>>)
    ensures forall k :: k in d <==> k in Announced(msgs)
    ensures |d| == |Announced(msgs)|
    ensures forall i, j :: 0 <= i < j < |d| ==> LexLt(d[i], d[j])
  {
    SortedVolumeIdsAscending(Announced(msgs));
    SortedVolumeIds(Announced(msgs))
  }

  /** The particles of a snapshot in ascending id order. */
  function Members(m: map<nat, Particle>): (ps: seq<Particle>)
    ensures |ps| == |SortedIds(m.Keys)|
    ensures forall i :: 0 <= i < |ps| ==> ps[i] == m[SortedIds(m.Keys)[i]]
  {
    var ks := SortedIds(m.Keys);
    seq(|ks|, i requires 0 <= i < |ks| => m[ks[i]])
  }

  /** Every particle of a snapshot is among its members. */
  lemma MembersComplete(m: map<nat, Particle>, k: nat)
    requires k in m
    ensures exists i :: 0 <= i < |Members(m)| && Members(m)[i] == m[k]
  {
    var ks := SortedIds(m.Keys);
    var i :| 0 <= i < |ks| && ks[i] == k;
    assert Members(m)[i] == m[k];
  }

  /**
   One pair of the rescan, `lp` of the changed volume `lk` and `rp` of the
   near volume `rk`. A finite collision time no earlier than `g` becomes the
   left volume's candidate when `lp` has the smaller id and the time is
   strictly earlier than that candidate; otherwise it becomes the right
   volume's candidate when strictly earlier than that one; otherwise it is
   dropped.

   So the step only lowers candidate times, to finite times no earlier than
   `g`; afterwards the pair is accounted for; and the step either changes
   nothing or writes the pair, at its collision time, into one of the two
   volumes: the left one (as `lp`, `rp`, `rk`) only when `lp` has the
   smaller id, the right one (as `rp`, `lp`, `lk`) otherwise. It changes
   something exactly when the time is due and beats the left candidate
   (with `lp` the smaller id) or the right one; in particular a pair with
   `lp` the smaller id that does not beat the left candidate still goes to
   the right volume, with the larger id first, when it beats that one.
   */
  function Consider(vols: Volumes, ph: Physics, g: real, lk: seq<int>, rk: seq<int>, lp: Particle, rp: Particle): (w: Volumes)
    ensures Lowered(vols, w, g)
    ensures lk in vols && rk in vols ==> Covered(w, ph, g, lk, rk, lp, rp)
    ensures var tt := ph.time(lp, rp);
      || w == vols
      || (lk in vols && lp.id < rp.id && w == vols[lk := vols[lk].(lhs := lp.id, rhs := rp.id, rhsVolume := rk, time := tt)])
      || (rk in vols && w == vols[rk := vols[rk].(lhs := rp.id, rhs := lp.id, rhsVolume := lk, time := tt)])
    ensures w != vols ==> lk in vols && rk in vols && ph.time(lp, rp) != PosInf && Le(Fin(g), ph.time(lp, rp))
    ensures var tt := ph.time(lp, rp);
      w == vols <==> !(lk in vols && rk in vols && tt != PosInf && Le(Fin(g), tt)
                       && ((lp.id < rp.id && Lt(tt, vols[lk].time)) || Lt(tt, vols[rk].time)))
  {
    if lk !in vols || rk !in vols then vols
    else
      var tt := ph.time(lp, rp);
      if tt != PosInf && Le(Fin(g), tt) then
        if lp.id < rp.id && Lt(tt, vols[lk].time) then
          vols[lk := vols[lk].(lhs := lp.id, rhs := rp.id, rhsVolume := rk, time := tt)]
        else if Lt(tt, vols[rk].time) then
          vols[rk := vols[rk].(lhs := rp.id, rhs := lp.id, rhsVolume := lk, time := tt)]
        else vols
      else vols
  }

  /** `lp` against each particle of `rps`, in order. */
  function ScanRight(vols: Volumes, ph: Physics, g: real, lk: seq<int>, rk: seq<int>, lp: Particle, rps: seq<Particle>): Volumes
    decreases |rps|
  {
    if rps == [] then vols
    else
      var n := |rps| - 1;
      Consider(ScanRight(vols, ph, g, lk, rk, lp, rps[..n]), ph, g, lk, rk, lp, rps[n])
  }

  /** Each particle of `lps` against each particle of `rps`, in order. */
  function ScanLeft(vols: Volumes, ph: Physics, g: real, lk: seq<int>, rk: seq<int>, lps: seq<Particle>, rps: seq<Particle>): Volumes
    decreases |lps|
  {
    if lps == [] then vols
    else
      var n := |lps| - 1;
      ScanRight(ScanLeft(vols, ph, g, lk, rk, lps[..n], rps), ph, g, lk, rk, lps[n], rps)
  }

  /** The changed volume `lk` against each of the volumes `rks` near it, in order. */
  function ScanNear(vols: Volumes, ph: Physics, g: real, lk: seq<int>, rks: seq<seq<int>>): Volumes
    decreases |rks|
  {
    if rks == [] then vols
    else
      var n := |rks| - 1;
      var w := ScanNear(vols, ph, g, lk, rks[..n]);
      var rk := rks[n];
      if Near(lk, rk) && lk in w && rk in w then
        ScanLeft(w, ph, g, lk, rk, Members(w[lk].snapshot), Members(w[rk].snapshot))
      else w
  }

  /**
   The rescan of one changed volume: its candidate is dropped, then it is
   paired with every known volume near it, in ascending id order.

   So the rescan drops the volume's candidate or replaces it by a collision
   it found, and only lowers the others, each candidate it sets being a
   collision it found at a time no earlier than `g`; and it accounts for
   every pair between the volume and every volume near it.
   */
  function RescanOne(vols: Volumes, ph: Physics, g: real, lk: seq<int>): (r: Volumes)
    ensures Rescanned(vols, r, ph, g, {lk})
    ensures lk in vols ==> lk in r && forall rk | rk in vols :: CoversVolume(r, ph, g, lk, rk)
  {
    if lk !in vols then vols
    else
      var w := vols[lk := vols[lk].(time := PosInf)];
      var rks := SortedVolumeIds(w.Keys);
      var r := ScanNear(w, ph, g, lk, rks);
      ScanNearLowers(w, ph, g, lk, rks);
      ScanNearRecords(w, ph, g, lk, rks);
      ScanNearCovers(w, ph, g, lk, rks);
      CoversNearMembers(r, ph, g, lk, rks);
      assert r[lk].time != PosInf ==> r[lk] != w[lk];
      r
  }

  /**
   What the transitions of the collider use: the collision rules, and the
   rescan of one changed volume. `RulesOf` builds the rescan from the rules;
   the transitions take it as a value so that reasoning about them needs
   only the properties `Sound` states, not the pair search itself.
   */
  datatype Rules = Rules(ph: Physics, search: (Volumes, real, seq<int>) -> Volumes)

  /** The collider's rules: `RescanOne` with the collision rules `ph`. */
  function RulesOf(ph: Physics): Rules {
    Rules(ph, (v, g, lk) => RescanOne(v, ph, g, lk))
  }

  /** The rescan of the changed volumes `dirty`, in order. */
  function Rescan(vols: Volumes, rules: Rules, g: real, dirty: seq<seq<int>>): Volumes
    decreases |dirty|
  {
    if dirty == [] then vols
    else
      var n := |dirty| - 1;
      rules.search(Rescan(vols, rules, g, dirty[..n]), g, dirty[n])
  }

  /**
   `w` is `v` with some candidate times lowered, the volumes and snapshots
   kept, and every changed entry holding a time no earlier than `g`.
   */
  predicate Lowered(v: Volumes, w: Volumes, g: real) {
    && w.Keys == v.Keys
    && forall k | k in v ::
      && w[k].snapshot == v[k].snapshot
      && Le(w[k].time, v[k].time)
      && (w[k] != v[k] ==> w[k].time.Fin? && w[k].time.r >= g)
  }

  lemma LoweredTransitive(u: Volumes, v: Volumes, w: Volumes, g: real)
    requires Lowered(u, v, g) && Lowered(v, w, g)
    ensures Lowered(u, w, g)
  {
    forall k | k in u ensures Le(w[k].time, u[k].time) {
      LeTransitive(w[k].time, v[k].time, u[k].time);
    }
  }

  lemma LeTransitive(a: Ext, b: Ext, c: Ext)
    requires Le(a, b) && Le(b, c)
    ensures Le(a, c)
  {
  }

  lemma {:induction false} ScanRightLowers(vols: Volumes, ph: Physics, g: real, lk: seq<int>, rk: seq<int>, lp: Particle, rps: seq<Particle>)
    ensures Lowered(vols, ScanRight(vols, ph, g, lk, rk, lp, rps), g)
    decreases |rps|
  {
    if rps != [] {
      var n := |rps| - 1;
      var w := ScanRight(vols, ph, g, lk, rk, lp, rps[..n]);
      ScanRightLowers(vols, ph, g, lk, rk, lp, rps[..n]);
      LoweredTransitive(vols, w, Consider(w, ph, g, lk, rk, lp, rps[n]), g);
    }
  }

  lemma {:induction false} ScanLeftLowers(vols: Volumes, ph: Physics, g: real, lk: seq<int>, rk: seq<int>, lps: seq<Particle>, rps: seq<Particle>)
    ensures Lowered(vols, ScanLeft(vols, ph, g, lk, rk, lps, rps), g)
    decreases |lps|
  {
    if lps != [] {
      var n := |lps| - 1;
      var w := ScanLeft(vols, ph, g, lk, rk, lps[..n], rps);
      ScanLeftLowers(vols, ph, g, lk, rk, lps[..n], rps);
      ScanRightLowers(w, ph, g, lk, rk, lps[n], rps);
      LoweredTransitive(vols, w, ScanRight(w, ph, g, lk, rk, lps[n], rps), g);
    }
  }

  lemma {:induction false} ScanNearLowers(vols: Volumes, ph: Physics, g: real, lk: seq<int>, rks: seq<seq<int>>)
    ensures Lowered(vols, ScanNear(vols, ph, g, lk, rks), g)
    decreases |rks|
  {
    if rks != [] {
      var n := |rks| - 1;
      var w := ScanNear(vols, ph, g, lk, rks[..n]);
      ScanNearLowers(vols, ph, g, lk, rks[..n]);
      var rk := rks[n];
      if Near(lk, rk) && lk in w && rk in w {
        var lps, rps := Members(w[lk].snapshot), Members(w[rk].snapshot);
        ScanLeftLowers(w, ph, g, lk, rk, lps, rps);
        LoweredTransitive(vols, w, ScanLeft(w, ph, g, lk, rk, lps, rps), g);
      }
    }
  }

  /**
   The pair `lp`, `rp` is accounted for: if its collision time is finite and
   no earlier than `g`, the candidate of the volume the rule assigns it to
   (the left one when `lp` has the smaller id, else the right one) is no
   later than it.
   */
  predicate Covered(vols: Volumes, ph: Physics, g: real, lk: seq<int>, rk: seq<int>, lp: Particle, rp: Particle)
    requires lk in vols && rk in vols
  {
    var tt := ph.time(lp, rp);
    tt != PosInf && Le(Fin(g), tt) ==>
      if lp.id < rp.id then Le(vols[lk].time, tt) else Le(vols[rk].time, tt)
  }

  /** Lowering candidate times keeps every pair accounted for. */
  lemma CoveredPersists(v: Volumes, w: Volumes, ph: Physics, g: real, lk: seq<int>, rk: seq<int>, lp: Particle, rp: Particle)
    requires lk in v && rk in v && Lowered(v, w, g)
    requires Covered(v, ph, g, lk, rk, lp, rp)
    ensures Covered(w, ph, g, lk, rk, lp, rp)
  {
    var tt := ph.time(lp, rp);
    if tt != PosInf && Le(Fin(g), tt) {
      if lp.id < rp.id {
        LeTransitive(w[lk].time, v[lk].time, tt);
      } else {
        LeTransitive(w[rk].time, v[rk].time, tt);
      }
    }
  }

  lemma {:induction false} ScanRightCovers(vols: Volumes, ph: Physics, g: real, lk: seq<int>, rk: seq<int>, lp: Particle, rps: seq<Particle>)
    requires lk in vols && rk in vols
    ensures ScanRight(vols, ph, g, lk, rk, lp, rps).Keys == vols.Keys
    ensures forall j :: 0 <= j < |rps| ==> Covered(ScanRight(vols, ph, g, lk, rk, lp, rps), ph, g, lk, rk, lp, rps[j])
    decreases |rps|
  {
    ScanRightLowers(vols, ph, g, lk, rk, lp, rps);
    if rps != [] {
      var n := |rps| - 1;
      var w := ScanRight(vols, ph, g, lk, rk, lp, rps[..n]);
      var r := Consider(w, ph, g, lk, rk, lp, rps[n]);
      ScanRightCovers(vols, ph, g, lk, rk, lp, rps[..n]);
      ScanRightLowers(vols, ph, g, lk, rk, lp, rps[..n]);
      forall j | 0 <= j < n ensures Covered(r, ph, g, lk, rk, lp, rps[j]) {
        assert rps[..n][j] == rps[j];
        CoveredPersists(w, r, ph, g, lk, rk, lp, rps[j]);
      }
    }
  }

  lemma {:induction false} ScanLeftCovers(vols: Volumes, ph: Physics, g: real, lk: seq<int>, rk: seq<int>, lps: seq<Particle>, rps: seq<Particle>)
    requires lk in vols && rk in vols
    ensures ScanLeft(vols, ph, g, lk, rk, lps, rps).Keys == vols.Keys
    ensures forall i, j :: 0 <= i < |lps| && 0 <= j < |rps| ==>
      Covered(ScanLeft(vols, ph, g, lk, rk, lps, rps), ph, g, lk, rk, lps[i], rps[j])
    decreases |lps|
  {
    ScanLeftLowers(vols, ph, g, lk, rk, lps, rps);
    if lps != [] {
      var n := |lps| - 1;
      var w := ScanLeft(vols, ph, g, lk, rk, lps[..n], rps);
      var r := ScanRight(w, ph, g, lk, rk, lps[n], rps);
      ScanLeftCovers(vols, ph, g, lk, rk, lps[..n], rps);
      ScanLeftLowers(vols, ph, g, lk, rk, lps[..n], rps);
      ScanRightLowers(w, ph, g, lk, rk, lps[n], rps);
      ScanRightCovers(w, ph, g, lk, rk, lps[n], rps);
      forall i, j | 0 <= i < n && 0 <= j < |rps| ensures Covered(r, ph, g, lk, rk, lps[i], rps[j]) {
        assert lps[..n][i] == lps[i];
        CoveredPersists(w, r, ph, g, lk, rk, lps[i], rps[j]);
      }
    }
  }

  /** Every pair between `lk` and the volume `rk`, when near, is accounted for. */
  predicate CoversVolume(vols: Volumes, ph: Physics, g: real, lk: seq<int>, rk: seq<int>)
    requires lk in vols
  {
    rk in vols && Near(lk, rk) ==>
      forall a, b | a in vols[lk].snapshot && b in vols[rk].snapshot ::
        Covered(vols, ph, g, lk, rk, vols[lk].snapshot[a], vols[rk].snapshot[b])
  }

  /** Every pair between `lk` and a near volume among `rks` is accounted for. */
  predicate CoversNear(vols: Volumes, ph: Physics, g: real, lk: seq<int>, rks: seq<seq<int>>)
    requires lk in vols
  {
    forall i | 0 <= i < |rks| :: CoversVolume(vols, ph, g, lk, rks[i])
  }

  /** Lowering candidate times keeps the pairs of a scanned volume accounted for. */
  lemma CoversVolumePersists(v: Volumes, w: Volumes, ph: Physics, g: real, lk: seq<int>, rk: seq<int>)
    requires lk in v && Lowered(v, w, g) && CoversVolume(v, ph, g, lk, rk)
    ensures CoversVolume(w, ph, g, lk, rk)
  {
    if rk in w && Near(lk, rk) {
      forall a, b | a in w[lk].snapshot && b in w[rk].snapshot
        ensures Covered(w, ph, g, lk, rk, w[lk].snapshot[a], w[rk].snapshot[b])
      {
        CoveredPersists(v, w, ph, g, lk, rk, v[lk].snapshot[a], v[rk].snapshot[b]);
      }
    }
  }

  /** The scan of one volume against one near volume accounts for all their pairs. */
  lemma ScanPairCovers(w: Volumes, ph: Physics, g: real, lk: seq<int>, rk: seq<int>)
    requires lk in w && rk in w
    ensures Lowered(w, ScanLeft(w, ph, g, lk, rk, Members(w[lk].snapshot), Members(w[rk].snapshot)), g)
    ensures CoversVolume(ScanLeft(w, ph, g, lk, rk, Members(w[lk].snapshot), Members(w[rk].snapshot)), ph, g, lk, rk)
  {
    var lps, rps := Members(w[lk].snapshot), Members(w[rk].snapshot);
    var r := ScanLeft(w, ph, g, lk, rk, lps, rps);
    ScanLeftLowers(w, ph, g, lk, rk, lps, rps);
    ScanLeftCovers(w, ph, g, lk, rk, lps, rps);
    forall a, b | a in r[lk].snapshot && b in r[rk].snapshot
      ensures Covered(r, ph, g, lk, rk, r[lk].snapshot[a], r[rk].snapshot[b])
    {
      MembersComplete(w[lk].snapshot, a);
      MembersComplete(w[rk].snapshot, b);
    }
  }

  /** Extending a scan by one volume keeps the earlier ones accounted for. */
  lemma CoversNearSnoc(w: Volumes, r: Volumes, ph: Physics, g: real, lk: seq<int>, rks: seq<seq<int>>)
    requires rks != [] && lk in w
    requires CoversNear(w, ph, g, lk, rks[..|rks| - 1]) && Lowered(w, r, g)
    requires CoversVolume(r, ph, g, lk, rks[|rks| - 1])
    ensures CoversNear(r, ph, g, lk, rks)
  {
    var n := |rks| - 1;
    forall i | 0 <= i < n ensures CoversVolume(r, ph, g, lk, rks[i]) {
      assert rks[..n][i] == rks[i];
      CoversVolumePersists(w, r, ph, g, lk, rks[i]);
    }
  }

  lemma {:induction false} ScanNearCovers(vols: Volumes, ph: Physics, g: real, lk: seq<int>, rks: seq<seq<int>>)
    requires lk in vols
    ensures lk in ScanNear(vols, ph, g, lk, rks)
    ensures CoversNear(ScanNear(vols, ph, g, lk, rks), ph, g, lk, rks)
    decreases |rks|
  {
    ScanNearLowers(vols, ph, g, lk, rks);
    if rks != [] {
      var n := |rks| - 1;
      var w := ScanNear(vols, ph, g, lk, rks[..n]);
      var rk := rks[n];
      var r := ScanNear(vols, ph, g, lk, rks);
      ScanNearCovers(vols, ph, g, lk, rks[..n]);
      ScanNearLowers(vols, ph, g, lk, rks[..n]);
      if Near(lk, rk) && rk in w {
        ScanPairCovers(w, ph, g, lk, rk);
      }
      assert Lowered(w, r, g) && CoversVolume(r, ph, g, lk, rk);
      CoversNearSnoc(w, r, ph, g, lk, rks);
    }
  }


  /** Every id in `ks` is a volume of `vols`, and each appears once, in ascending order. */
  predicate AscendingVolumes(vols: Volumes, ks: seq<seq<int>>) {
    (forall i | 0 <= i < |ks| :: ks[i] in vols) && forall i, j | 0 <= i < j < |ks| :: LexLt(ks[i], ks[j])
  }

  /** Volume ids listed in ascending order are distinct. */
  lemma AscendingVolumesDistinct(vols: Volumes, ks: seq<seq<int>>, i: int, j: int)
    requires AscendingVolumes(vols, ks) && 0 <= i < |ks| && 0 <= j < |ks| && i != j
    ensures ks[i] != ks[j]
  {
    LexLtIsStrictTotal();
    if i < j {
      assert LexLt(ks[i], ks[j]);
    } else {
      assert LexLt(ks[j], ks[i]);
    }
  }

  /** An ascending list without its last id is ascending and does not hold that id. */
  lemma AscendingVolumesInit(vols: Volumes, ks: seq<seq<int>>)
    requires AscendingVolumes(vols, ks) && ks != []
    ensures AscendingVolumes(vols, ks[..|ks| - 1])
    ensures ks[|ks| - 1] !in ks[..|ks| - 1]
  {
    var n := |ks| - 1;
    if ks[n] in ks[..n] {
      var j :| 0 <= j < n && ks[..n][j] == ks[n];
      AscendingVolumesDistinct(vols, ks, j, n);
    }
  }

  lemma CoversNearMembers(r: Volumes, ph: Physics, g: real, lk: seq<int>, rks: seq<seq<int>>)
    requires lk in r && CoversNear(r, ph, g, lk, rks)
    ensures forall rk | rk in rks :: CoversVolume(r, ph, g, lk, rk)
  {
    forall rk | rk in rks ensures CoversVolume(r, ph, g, lk, rk) {
      var i :| 0 <= i < |rks| && rks[i] == rk;
    }
  }

  /**
   The candidate of volume `k` is a collision the rescan found: its right
   volume is known and near `k`, particles with ids `lhs` and `rhs` are in
   the snapshots of `k` and of the right volume, and the candidate stands at
   their collision time. That time was computed with the particle of the
   changed volume first, so it is the pair's time in one order or the other.
   */
  predicate Records(vols: Volumes, ph: Physics, k: seq<int>)
    requires k in vols
  {
    var c := vols[k];
    && c.rhsVolume in vols
    && Near(k, c.rhsVolume)
    && exists lp, rp | lp in c.snapshot.Values && rp in vols[c.rhsVolume].snapshot.Values ::
         lp.id == c.lhs && rp.id == c.rhs && (c.time == ph.time(lp, rp) || c.time == ph.time(rp, lp))
  }

  /** Every entry of `w` that differs from `v` records a collision the rescan found. */
  predicate Recorded(v: Volumes, w: Volumes, ph: Physics) {
    forall k | k in v && k in w :: w[k] != v[k] ==> Records(w, ph, k)
  }

  /** A recorded candidate stays recorded while its entry and every snapshot are kept. */
  lemma RecordsPersists(v: Volumes, w: Volumes, ph: Physics, k: seq<int>)
    requires k in v && Records(v, ph, k)
    requires w.Keys == v.Keys && w[k] == v[k]
    requires forall j | j in v :: w[j].snapshot == v[j].snapshot
    ensures Records(w, ph, k)
  {
    var c := v[k];
    var lp, rp :| lp in c.snapshot.Values && rp in v[c.rhsVolume].snapshot.Values
      && lp.id == c.lhs && rp.id == c.rhs && (c.time == ph.time(lp, rp) || c.time == ph.time(rp, lp));
    assert rp in w[c.rhsVolume].snapshot.Values;
  }

  lemma RecordedTransitive(u: Volumes, v: Volumes, w: Volumes, ph: Physics, g: real)
    requires Lowered(u, v, g) && Lowered(v, w, g)
    requires Recorded(u, v, ph) && Recorded(v, w, ph)
    ensures Recorded(u, w, ph)
  {
    forall k | k in u && k in w && w[k] != u[k] ensures Records(w, ph, k) {
      if w[k] == v[k] {
        RecordsPersists(v, w, ph, k);
      }
    }
  }

  /** A pair step writes only the pair it considers, a collision of particles of the two snapshots. */
  lemma ConsiderRecords(vols: Volumes, ph: Physics, g: real, lk: seq<int>, rk: seq<int>, lp: Particle, rp: Particle)
    requires lk in vols && rk in vols && Near(lk, rk)
    requires lp in vols[lk].snapshot.Values && rp in vols[rk].snapshot.Values
    ensures Recorded(vols, Consider(vols, ph, g, lk, rk, lp, rp), ph)
  {
    NearSymmetric(lk, rk);
  }

  /** The particles `ps` all belong to the snapshot `m`. */
  predicate AllIn(ps: seq<Particle>, m: map<nat, Particle>) {
    forall i | 0 <= i < |ps| :: ps[i] in m.Values
  }

  lemma MembersIn(m: map<nat, Particle>)
    ensures AllIn(Members(m), m)
  {
    forall i | 0 <= i < |Members(m)| ensures Members(m)[i] in m.Values {
      assert SortedIds(m.Keys)[i] in m.Keys;
    }
  }

  lemma {:induction false} ScanRightRecords(vols: Volumes, ph: Physics, g: real, lk: seq<int>, rk: seq<int>, lp: Particle, rps: seq<Particle>)
    requires lk in vols && rk in vols && Near(lk, rk)
    requires lp in vols[lk].snapshot.Values && AllIn(rps, vols[rk].snapshot)
    ensures Recorded(vols, ScanRight(vols, ph, g, lk, rk, lp, rps), ph)
    decreases |rps|
  {
    if rps != [] {
      var n := |rps| - 1;
      var w := ScanRight(vols, ph, g, lk, rk, lp, rps[..n]);
      assert AllIn(rps[..n], vols[rk].snapshot);
      ScanRightRecords(vols, ph, g, lk, rk, lp, rps[..n]);
      ScanRightLowers(vols, ph, g, lk, rk, lp, rps[..n]);
      ConsiderRecords(w, ph, g, lk, rk, lp, rps[n]);
      RecordedTransitive(vols, w, Consider(w, ph, g, lk, rk, lp, rps[n]), ph, g);
    }
  }

  lemma {:induction false} ScanLeftRecords(vols: Volumes, ph: Physics, g: real, lk: seq<int>, rk: seq<int>, lps: seq<Particle>, rps: seq<Particle>)
    requires lk in vols && rk in vols && Near(lk, rk)
    requires AllIn(lps, vols[lk].snapshot) && AllIn(rps, vols[rk].snapshot)
    ensures Recorded(vols, ScanLeft(vols, ph, g, lk, rk, lps, rps), ph)
    decreases |lps|
  {
    if lps != [] {
      var n := |lps| - 1;
      var w := ScanLeft(vols, ph, g, lk, rk, lps[..n], rps);
      assert AllIn(lps[..n], vols[lk].snapshot);
      ScanLeftRecords(vols, ph, g, lk, rk, lps[..n], rps);
      ScanLeftLowers(vols, ph, g, lk, rk, lps[..n], rps);
      ScanRightLowers(w, ph, g, lk, rk, lps[n], rps);
      ScanRightRecords(w, ph, g, lk, rk, lps[n], rps);
      RecordedTransitive(vols, w, ScanRight(w, ph, g, lk, rk, lps[n], rps), ph, g);
    }
  }

  lemma {:induction false} ScanNearRecords(vols: Volumes, ph: Physics, g: real, lk: seq<int>, rks: seq<seq<int>>)
    ensures Recorded(vols, ScanNear(vols, ph, g, lk, rks), ph)
    decreases |rks|
  {
    if rks != [] {
      var n := |rks| - 1;
      var w := ScanNear(vols, ph, g, lk, rks[..n]);
      ScanNearRecords(vols, ph, g, lk, rks[..n]);
      ScanNearLowers(vols, ph, g, lk, rks[..n]);
      var rk := rks[n];
      if Near(lk, rk) && lk in w && rk in w {
        var lps, rps := Members(w[lk].snapshot), Members(w[rk].snapshot);
        MembersIn(w[lk].snapshot);
        MembersIn(w[rk].snapshot);
        ScanLeftLowers(w, ph, g, lk, rk, lps, rps);
        ScanLeftRecords(w, ph, g, lk, rk, lps, rps);
        RecordedTransitive(vols, w, ScanLeft(w, ph, g, lk, rk, lps, rps), ph, g);
      }
    }
  }

  /**
   `w` is `v` after rescanning the volumes `done`: the same volumes and
   snapshots; each rescanned volume has no candidate or one no earlier than
   `g`; every other candidate is kept or lowered to a time no earlier than
   `g`; and every candidate set on the way records a collision, under the
   rules `ph`, of particles of the snapshots of two near volumes.
   */
  predicate Rescanned(v: Volumes, w: Volumes, ph: Physics, g: real, done: set<seq<int>>) {
    && w.Keys == v.Keys
    && forall k | k in v ::
      && w[k].snapshot == v[k].snapshot
      && (k in done ==> w[k].time == PosInf || (w[k].time.Fin? && w[k].time.r >= g && Records(w, ph, k)))
      && (k !in done ==> Le(w[k].time, v[k].time)
                         && (w[k] != v[k] ==> w[k].time.Fin? && w[k].time.r >= g && Records(w, ph, k)))
  }

  /**
   The rescan of one volume drops its candidate and only lowers the others,
   setting only collisions it found.
   */
  ghost predicate SearchLowers(rules: Rules) {
    forall v, g, lk :: Rescanned(v, rules.search(v, g, lk), rules.ph, g, {lk})
  }

  /**
   The rescan of a known volume accounts for every pair between it and
   every volume near it.
   */
  ghost predicate SearchCovers(rules: Rules) {
    forall v, g, lk, rk {:trigger CoversVolume(rules.search(v, g, lk), rules.ph, g, lk, rk)} | lk in v && rk in v ::
      lk in rules.search(v, g, lk) && CoversVolume(rules.search(v, g, lk), rules.ph, g, lk, rk)
  }

  /** What the transitions need of a rescan. */
  ghost predicate Sound(rules: Rules) {
    SearchLowers(rules) && SearchCovers(rules)
  }

  /** The collider's own rescan has both properties, whatever the collision rules. */
  lemma RulesOfSound(ph: Physics)
    ensures Sound(RulesOf(ph))
  {
    var rules := RulesOf(ph);
    forall v, g, lk ensures Rescanned(v, rules.search(v, g, lk), ph, g, {lk}) {
      assert rules.search(v, g, lk) == RescanOne(v, ph, g, lk);
    }
    forall v, g, lk, rk {:trigger CoversVolume(rules.search(v, g, lk), ph, g, lk, rk)} | lk in v && rk in v
      ensures lk in rules.search(v, g, lk) && CoversVolume(rules.search(v, g, lk), ph, g, lk, rk)
    {
      assert rules.search(v, g, lk) == RescanOne(v, ph, g, lk);
    }
  }

  /** Rescanning one more volume extends the rescanned set. */
  lemma RescannedSnoc(u: Volumes, v: Volumes, w: Volumes, ph: Physics, g: real, done: set<seq<int>>, lk: seq<int>)
    requires Rescanned(u, v, ph, g, done) && Rescanned(v, w, ph, g, {lk})
    ensures Rescanned(u, w, ph, g, done + {lk})
  {
    forall k | k in u && k !in done + {lk} ensures Le(w[k].time, u[k].time) {
      LeTransitive(w[k].time, v[k].time, u[k].time);
    }
    forall k | k in v && w[k] == v[k] && Records(v, ph, k) ensures Records(w, ph, k) {
      RecordsPersists(v, w, ph, k);
    }
  }

  /** The rescan of the volumes `dirty` has the effect of `Rescanned` on exactly those. */
  lemma {:induction false} RescanEffect(vols: Volumes, rules: Rules, g: real, dirty: seq<seq<int>>)
    requires SearchLowers(rules)
    ensures Rescanned(vols, Rescan(vols, rules, g, dirty), rules.ph, g, set k | k in dirty)
    decreases |dirty|
  {
    if dirty != [] {
      var n := |dirty| - 1;
      RescanEffect(vols, rules, g, dirty[..n]);
      var v := Rescan(vols, rules, g, dirty[..n]);
      var w := rules.search(v, g, dirty[n]);
      assert Rescanned(v, w, rules.ph, g, {dirty[n]});
      RescannedSnoc(vols, v, w, rules.ph, g, (set k | k in dirty[..n]), dirty[n]);
      assert dirty == dirty[..n] + [dirty[n]];
      assert (set k | k in dirty) == (set k | k in dirty[..n]) + {dirty[n]};
    }
  }

  /** Rescanning a single volume is one search. */
  lemma RescanSingle(vols: Volumes, rules: Rules, g: real, lk: seq<int>)
    ensures Rescan(vols, rules, g, [lk]) == rules.search(vols, g, lk)
  {
    assert [lk][..0] == [];
  }

  /**
   The earliest of `next` and the candidate times of the volumes `ks`,
   lowered strictly: the minimum of `next` and those times, attained by one
   of them.
   */
  function Lowest(vols: Volumes, ks: seq<seq<int>>, next: Ext): (low: Ext)
    ensures Le(low, next)
    ensures forall i | 0 <= i < |ks| && ks[i] in vols :: Le(low, vols[ks[i]].time)
    ensures low == next || exists i :: 0 <= i < |ks| && ks[i] in vols && low == vols[ks[i]].time
    decreases |ks|
  {
    if ks == [] then next
    else
      var n := |ks| - 1;
      var m := Lowest(vols, ks[..n], next);
      var low := if ks[n] in vols && Lt(vols[ks[n]].time, m) then vols[ks[n]].time else m;
      assert forall i | 0 <= i < |ks| && ks[i] in vols :: Le(low, vols[ks[i]].time) by {
        forall i | 0 <= i < n && ks[i] in vols ensures Le(low, vols[ks[i]].time) {
          assert ks[..n][i] == ks[i];
          LeTransitive(low, m, vols[ks[i]].time);
        }
      }
      LeTransitive(low, m, next);
      assert low == next || exists i :: 0 <= i < |ks| && ks[i] in vols && low == vols[ks[i]].time by {
        if low != next && low == m {
          var i :| 0 <= i < n && ks[..n][i] in vols && m == vols[ks[..n][i]].time;
          assert ks[i] == ks[..n][i];
        }
      }
      low
  }

  /**
   The body of `external_transition` once the global time has moved:
   record the announcements, rescan each announcing volume once, in
   ascending id order, and lower the next internal time to the earliest
   candidate.
   */
  function Announce(s: ColliderState, msgs: seq<Announcement>, rules: Rules): (r: ColliderState)
    ensures r.globalTime == s.globalTime && r.pendingDeltas == s.pendingDeltas
  {
    var v := Rescan(RegisterAll(s.volumes, msgs), rules, s.globalTime, DirtyIds(msgs));
    s.(volumes := v, nextInternalTime := Lowest(v, SortedVolumeIds(v.Keys), s.nextInternalTime))
  }

  /** `external_transition`: advance the global time by `dt`, then `Announce`. */
  function External(s: ColliderState, dt: real, msgs: seq<Announcement>, rules: Rules): (r: ColliderState)
    ensures r.globalTime == s.globalTime + dt && r.pendingDeltas == s.pendingDeltas
  {
    Announce(s.(globalTime := s.globalTime + dt), msgs, rules)
  }

  /** The external transition is `Announce` at the advanced time. */
  lemma ExternalIsAnnounce(s: ColliderState, dt: real, msgs: seq<Announcement>, rules: Rules)
    ensures External(s, dt, msgs, rules) == Announce(s.(globalTime := s.globalTime + dt), msgs, rules)
  {
  }

  /**
   After the announcements: the known volumes are the old ones and the
   announcing ones, with the snapshots recorded; each announcing volume has
   no candidate or one no earlier than the current time; every other
   candidate is kept or lowered to a time no earlier than the current time.
   */
  lemma AnnounceCandidates(s: ColliderState, msgs: seq<Announcement>, rules: Rules)
    requires SearchLowers(rules)
    ensures Announce(s, msgs, rules).volumes.Keys == s.volumes.Keys + Announced(msgs)
    ensures Rescanned(RegisterAll(s.volumes, msgs), Announce(s, msgs, rules).volumes, rules.ph, s.globalTime, Announced(msgs))
  {
    RegisteredRescan(s.volumes, msgs, rules, s.globalTime);
    RegisterAllKeys(s.volumes, msgs);
  }

  /** The rescan after recording the announcements has the effect of `Rescanned` on the announcing volumes. */
  lemma RegisteredRescan(vols: Volumes, msgs: seq<Announcement>, rules: Rules, g: real)
    requires SearchLowers(rules)
    ensures Rescanned(RegisterAll(vols, msgs), Rescan(RegisterAll(vols, msgs), rules, g, DirtyIds(msgs)), rules.ph, g, Announced(msgs))
  {
    var d := DirtyIds(msgs);
    RescanEffect(RegisterAll(vols, msgs), rules, g, d);
    assert (set k | k in d) == Announced(msgs);
  }

  /** The external transition has the effect of `AnnounceCandidates` at the advanced time. */
  lemma ExternalCandidates(s: ColliderState, dt: real, msgs: seq<Announcement>, rules: Rules)
    requires SearchLowers(rules)
    ensures External(s, dt, msgs, rules).volumes.Keys == s.volumes.Keys + Announced(msgs)
    ensures Rescanned(RegisterAll(s.volumes, msgs), External(s, dt, msgs, rules).volumes, rules.ph, s.globalTime + dt, Announced(msgs))
  {
    ExternalIsAnnounce(s, dt, msgs, rules);
    AnnounceCandidates(s.(globalTime := s.globalTime + dt), msgs, rules);
  }

  /**
   After the announcements the next internal time is the earliest of its
   old value and every candidate time: it is never raised.
   */
  lemma AnnounceNext(s: ColliderState, msgs: seq<Announcement>, rules: Rules)
    ensures Le(Announce(s, msgs, rules).nextInternalTime, s.nextInternalTime)
    ensures forall k | k in Announce(s, msgs, rules).volumes ::
      Le(Announce(s, msgs, rules).nextInternalTime, Announce(s, msgs, rules).volumes[k].time)
    ensures Announce(s, msgs, rules).nextInternalTime == s.nextInternalTime
      || exists k :: k in Announce(s, msgs, rules).volumes
           && Announce(s, msgs, rules).nextInternalTime == Announce(s, msgs, rules).volumes[k].time
  {
    var v := Announce(s, msgs, rules).volumes;
    var ks := SortedVolumeIds(v.Keys);
    forall k | k in v ensures Le(Announce(s, msgs, rules).nextInternalTime, v[k].time) {
      var i :| 0 <= i < |ks| && ks[i] == k;
    }
  }

  /** The external transition has the effect of `AnnounceNext` on the next internal time. */
  lemma ExternalNext(s: ColliderState, dt: real, msgs: seq<Announcement>, rules: Rules)
    ensures Le(External(s, dt, msgs, rules).nextInternalTime, s.nextInternalTime)
    ensures forall k | k in External(s, dt, msgs, rules).volumes ::
      Le(External(s, dt, msgs, rules).nextInternalTime, External(s, dt, msgs, rules).volumes[k].time)
    ensures External(s, dt, msgs, rules).nextInternalTime == s.nextInternalTime
      || exists k :: k in External(s, dt, msgs, rules).volumes
           && External(s, dt, msgs, rules).nextInternalTime == External(s, dt, msgs, rules).volumes[k].time
  {
    ExternalIsAnnounce(s, dt, msgs, rules);
    AnnounceNext(s.(globalTime := s.globalTime + dt), msgs, rules);
  }

  /**
   A single announcement: after the rescan of its volume, every pair of a
   particle of that volume and a particle of a near volume whose collision
   time is finite and no earlier than the current time has been accounted
   for, by the volume the rule assigns it to.
   */
  lemma AnnounceCoversAnnouncer(s: ColliderState, a: Announcement, rules: Rules)
    requires Sound(rules)
    ensures a.volumeId in Announce(s, [a], rules).volumes
    ensures Announce(s, [a], rules).volumes[a.volumeId].snapshot == a.snapshot
    ensures forall rk | rk in Announce(s, [a], rules).volumes ::
      CoversVolume(Announce(s, [a], rules).volumes, rules.ph, s.globalTime, a.volumeId, rk)
  {
    var g := s.globalTime;
    var v := RegisterAll(s.volumes, [a]);
    RegisterAllSnapshot(s.volumes, [a], 0);
    assert Announced([a]) == {a.volumeId};
    assert DirtyIds([a]) == [a.volumeId];
    RescanSingle(v, rules, g, a.volumeId);
    var w := rules.search(v, g, a.volumeId);
    assert Rescanned(v, w, rules.ph, g, {a.volumeId});
    forall rk | rk in w ensures CoversVolume(w, rules.ph, g, a.volumeId, rk) {
      assert a.volumeId in v && rk in v;
    }
  }

  /** The external transition has the effect of `AnnounceCoversAnnouncer` at the advanced time. */
  lemma ExternalCoversAnnouncer(s: ColliderState, dt: real, a: Announcement, rules: Rules)
    requires Sound(rules)
    ensures a.volumeId in External(s, dt, [a], rules).volumes
    ensures External(s, dt, [a], rules).volumes[a.volumeId].snapshot == a.snapshot
    ensures forall rk | rk in External(s, dt, [a], rules).volumes ::
      CoversVolume(External(s, dt, [a], rules).volumes, rules.ph, s.globalTime + dt, a.volumeId, rk)
  {
    ExternalIsAnnounce(s, dt, [a], rules);
    AnnounceCoversAnnouncer(s.(globalTime := s.globalTime + dt), a, rules);
  }

  /** Why an internal transition cannot resolve a candidate (`at` throws, or no contact normal). */
  datatype ColliderError =
    | MissingParticle(volume: seq<int>, particle: nat)
    | MissingVolume(volume: seq<int>)
    | Coincident(volume: seq<int>)

  /** What the internal transition accumulates: the volumes and the deltas to emit. */
  datatype Firing = Firing(volumes: Volumes, deltas: seq<DeltaMsg>)

  /** A volume whose candidate time has come. */
  predicate Fires(vols: Volumes, g: real, k: seq<int>) {
    k in vols && Le(vols[k].time, Fin(g))
  }

  /**
   One volume of the internal transition: if its candidate is due, look up
   both particles, resolve the collision at `g`, stamp the two deltas with
   the two volume ids, queue them, and drop the candidate. It fails exactly
   when the candidate is due and cannot be resolved.
   */
  function FireOne(f: Firing, ph: Physics, g: real, k: seq<int>): (r: Result<Firing, ColliderError>)
    ensures r.Success? <==> (Fires(f.volumes, g, k) ==> Resolves(f.volumes, ph, g, k))
    ensures r.Success? && !Fires(f.volumes, g, k) ==> r.value == f
    ensures r.Success? && Fires(f.volumes, g, k) ==>
      && r.value.volumes == f.volumes[k := f.volumes[k].(time := PosInf)]
      && r.value.deltas == f.deltas + Resolution(f.volumes, ph, g, k)
  {
    if !Fires(f.volumes, g, k) then Success(f)
    else
      var v := f.volumes[k];
      if v.lhs !in v.snapshot then Failure(MissingParticle(k, v.lhs))
      else if v.rhsVolume !in f.volumes then Failure(MissingVolume(v.rhsVolume))
      else if v.rhs !in f.volumes[v.rhsVolume].snapshot then Failure(MissingParticle(v.rhsVolume, v.rhs))
      else
        match ph.collide(v.snapshot[v.lhs], f.volumes[v.rhsVolume].snapshot[v.rhs], g)
        case None => Failure(Coincident(k))
        case Some(d) =>
          Success(Firing(
            f.volumes[k := v.(time := PosInf)],
            f.deltas + [d.lhs.(volumeId := k), d.rhs.(volumeId := v.rhsVolume)]))
  }

  /** The volumes `ks`, in order; the first failure ends the transition. */
  function FireAll(f: Firing, ph: Physics, g: real, ks: seq<seq<int>>): Result<Firing, ColliderError>
    decreases |ks|
  {
    if ks == [] then Success(f)
    else
      match FireAll(f, ph, g, ks[..|ks| - 1])
      case Failure(e) => Failure(e)
      case Success(f1) => FireOne(f1, ph, g, ks[|ks| - 1])
  }

  /** The candidate of volume `k` can be resolved: both particles exist and their centres differ. */
  predicate Resolves(vols: Volumes, ph: Physics, g: real, k: seq<int>)
    requires k in vols
  {
    var v := vols[k];
    && v.lhs in v.snapshot && v.rhsVolume in vols && v.rhs in vols[v.rhsVolume].snapshot
    && ph.collide(v.snapshot[v.lhs], vols[v.rhsVolume].snapshot[v.rhs], g).Some?
  }

  /** The two deltas resolving the candidate of volume `k`, stamped with their volume ids. */
  function Resolution(vols: Volumes, ph: Physics, g: real, k: seq<int>): (ds: seq<DeltaMsg>)
    requires k in vols && Resolves(vols, ph, g, k)
    ensures |ds| == 2 && ds[0].volumeId == k && ds[1].volumeId == vols[k].rhsVolume
  {
    var v := vols[k];
    var d := ph.collide(v.snapshot[v.lhs], vols[v.rhsVolume].snapshot[v.rhs], g).value;
    [d.lhs.(volumeId := k), d.rhs.(volumeId := v.rhsVolume)]
  }

  /** Every due candidate among `ks` can be resolved. */
  predicate AllResolve(vols: Volumes, ph: Physics, g: real, ks: seq<seq<int>>) {
    forall i | 0 <= i < |ks| && Fires(vols, g, ks[i]) :: Resolves(vols, ph, g, ks[i])
  }

  /** Reference definition: the due volumes among `ks`, in order. */
  function FiredIds(vols: Volumes, g: real, ks: seq<seq<int>>): seq<seq<int>>
    decreases |ks|
  {
    if ks == [] then []
    else
      var n := |ks| - 1;
      FiredIds(vols, g, ks[..n]) + (if Fires(vols, g, ks[n]) then [ks[n]] else [])
  }

  /** Reference definition: the resolutions of the due volumes among `ks`, in order. */
  function FiredDeltas(vols: Volumes, ph: Physics, g: real, ks: seq<seq<int>>): seq<DeltaMsg>
    requires AllResolve(vols, ph, g, ks)
    decreases |ks|
  {
    if ks == [] then []
    else
      var n := |ks| - 1;
      assert AllResolve(vols, ph, g, ks[..n]) by {
        forall i | 0 <= i < n ensures ks[..n][i] == ks[i] {
        }
      }
      FiredDeltas(vols, ph, g, ks[..n]) + (if Fires(vols, g, ks[n]) then Resolution(vols, ph, g, ks[n]) else [])
  }

  /** The volumes after the due candidates among `ks` are dropped. */
  function Cleared(vols: Volumes, g: real, ks: seq<seq<int>>): (r: Volumes)
    ensures r.Keys == vols.Keys
  {
    map k | k in vols :: if k in ks && Fires(vols, g, k) then vols[k].(time := PosInf) else vols[k]
  }

  /** A due candidate among `ks` and one more key. */
  lemma AllResolveSnoc(vols: Volumes, ph: Physics, g: real, ks: seq<seq<int>>)
    requires ks != []
    ensures AllResolve(vols, ph, g, ks) <==>
      AllResolve(vols, ph, g, ks[..|ks| - 1])
      && (Fires(vols, g, ks[|ks| - 1]) ==> Resolves(vols, ph, g, ks[|ks| - 1]))
  {
    var n := |ks| - 1;
    assert forall i | 0 <= i < n :: ks[..n][i] == ks[i];
  }

  /**
   One step of the internal transition, on volumes whose due candidates
   among `pre` are already dropped: it succeeds exactly when the candidate
   of `k` is not due or resolves, and then drops it and queues its
   resolution.
   */
  lemma FireOneEffect(vols: Volumes, ph: Physics, g: real, pre: seq<seq<int>>, ds: seq<DeltaMsg>, k: seq<int>)
    requires k in vols && k !in pre
    ensures FireOne(Firing(Cleared(vols, g, pre), ds), ph, g, k).Success? <==>
      (Fires(vols, g, k) ==> Resolves(vols, ph, g, k))
    ensures FireOne(Firing(Cleared(vols, g, pre), ds), ph, g, k).Success? ==>
      && FireOne(Firing(Cleared(vols, g, pre), ds), ph, g, k).value.volumes == Cleared(vols, g, pre + [k])
      && FireOne(Firing(Cleared(vols, g, pre), ds), ph, g, k).value.deltas ==
           ds + (if Fires(vols, g, k) then Resolution(vols, ph, g, k) else [])
  {
    var c := Cleared(vols, g, pre);
    assert c[k] == vols[k];
    assert forall j | j in vols :: c[j].snapshot == vols[j].snapshot;
    assert Fires(c, g, k) == Fires(vols, g, k);
    var c2 := Cleared(vols, g, pre + [k]);
    if Fires(vols, g, k) {
      assert c2 == c[k := vols[k].(time := PosInf)];
    } else {
      assert c2 == c;
    }
  }

  /**
   The internal transition over distinct volume ids succeeds exactly when
   every due candidate resolves; it then drops exactly the due candidates
   and queues their resolutions in order.
   */
  lemma {:induction false} FireAllEffect(vols: Volumes, ph: Physics, g: real, ks: seq<seq<int>>)
    requires AscendingVolumes(vols, ks)
    ensures FireAll(Firing(vols, []), ph, g, ks).Success? <==> AllResolve(vols, ph, g, ks)
    ensures FireAll(Firing(vols, []), ph, g, ks).Success? ==>
      && FireAll(Firing(vols, []), ph, g, ks).value.volumes == Cleared(vols, g, ks)
      && FireAll(Firing(vols, []), ph, g, ks).value.deltas == FiredDeltas(vols, ph, g, ks)
    decreases |ks|
  {
    if ks == [] {
      assert Cleared(vols, g, ks) == vols;
    } else {
      var n := |ks| - 1;
      var k := ks[n];
      var pre := ks[..n];
      AscendingVolumesInit(vols, ks);
      FireAllEffect(vols, ph, g, pre);
      AllResolveSnoc(vols, ph, g, ks);
      var prev := FireAll(Firing(vols, []), ph, g, pre);
      if prev.Success? {
        assert prev.value == Firing(Cleared(vols, g, pre), prev.value.deltas);
        assert FireAll(Firing(vols, []), ph, g, ks) == FireOne(prev.value, ph, g, k);
        FireOneEffect(vols, ph, g, pre, prev.value.deltas, k);
        assert pre + [k] == ks;
      } else {
        assert FireAll(Firing(vols, []), ph, g, ks).Failure?;
      }
    }
  }

  /** The ids `FiredIds` picks are the due ones. */
  lemma {:induction false} FiredIdsMembers(vols: Volumes, g: real, ks: seq<seq<int>>)
    ensures forall k :: k in FiredIds(vols, g, ks) <==> k in ks && Fires(vols, g, k)
    decreases |ks|
  {
    if ks != [] {
      var n := |ks| - 1;
      FiredIdsMembers(vols, g, ks[..n]);
      assert ks == ks[..n] + [ks[n]];
    }
  }

  /**
   The queued deltas come in pairs, one pair per due volume in order: the
   `j`-th pair resolves the `j`-th due volume.
   */
  lemma {:induction false} FiredDeltasPairs(vols: Volumes, ph: Physics, g: real, ks: seq<seq<int>>)
    requires AllResolve(vols, ph, g, ks)
    ensures |FiredDeltas(vols, ph, g, ks)| == 2 * |FiredIds(vols, g, ks)|
    ensures forall j | 0 <= j < |FiredIds(vols, g, ks)| ::
      FiredIds(vols, g, ks)[j] in vols && Resolves(vols, ph, g, FiredIds(vols, g, ks)[j])
      && FiredDeltas(vols, ph, g, ks)[2 * j..2 * j + 2] == Resolution(vols, ph, g, FiredIds(vols, g, ks)[j])
    decreases |ks|
  {
    if ks != [] {
      var n := |ks| - 1;
      assert AllResolve(vols, ph, g, ks[..n]) by {
        forall i | 0 <= i < n ensures ks[..n][i] == ks[i] {
        }
      }
      FiredDeltasPairs(vols, ph, g, ks[..n]);
      var ds := FiredDeltas(vols, ph, g, ks[..n]);
      var fs := FiredIds(vols, g, ks[..n]);
      var all := FiredDeltas(vols, ph, g, ks);
      forall j | 0 <= j < |fs| ensures all[2 * j..2 * j + 2] == ds[2 * j..2 * j + 2] {
        assert all[2 * j] == ds[2 * j] && all[2 * j + 1] == ds[2 * j + 1];
      }
      if Fires(vols, g, ks[n]) {
        assert all[2 * |fs|..2 * |fs| + 2] == Resolution(vols, ph, g, ks[n]);
      }
    }
  }

  /** `time_advance`: zero while deltas are waiting, else the time left to the next candidate. */
  function TimeAdvance(s: ColliderState): (t: Ext)
    ensures Le(Fin(0.0), t)
    ensures |s.pendingDeltas| > 0 ==> t == Fin(0.0)
    ensures t == PosInf <==> |s.pendingDeltas| == 0 && s.nextInternalTime == PosInf
    ensures |s.pendingDeltas| == 0 && Le(Fin(s.globalTime), s.nextInternalTime) ==>
      s.nextInternalTime == Shift(s.globalTime, t)
    ensures |s.pendingDeltas| == 0 && Lt(s.nextInternalTime, Fin(s.globalTime)) ==> t == Fin(0.0)
  {
    if |s.pendingDeltas| > 0 then Fin(0.0)
    else Max(Minus(s.nextInternalTime, s.globalTime), Fin(0.0))
  }

  /**
   With no deltas queued, the internal transition runs at the next internal
   time, or at once if that time has passed, and every candidate no later
   than the next internal time is then due.
   */
  lemma WakeUpIsNextInternalTime(s: ColliderState)
    requires |s.pendingDeltas| == 0 && s.nextInternalTime != PosInf
    ensures TimeAdvance(s).Fin?
    ensures Le(Fin(s.globalTime), s.nextInternalTime) ==> Fin(FireTime(s)) == s.nextInternalTime
    ensures Lt(s.nextInternalTime, Fin(s.globalTime)) ==> FireTime(s) == s.globalTime
    ensures forall k | k in s.volumes && Le(s.volumes[k].time, s.nextInternalTime) :: Fires(s.volumes, FireTime(s), k)
  {
    forall k | k in s.volumes && Le(s.volumes[k].time, s.nextInternalTime) ensures Fires(s.volumes, FireTime(s), k) {
      LeTransitive(s.volumes[k].time, s.nextInternalTime, Fin(FireTime(s)));
    }
  }

  /** `output`: the queued deltas. */
  function Output(s: ColliderState): seq<DeltaMsg> {
    s.pendingDeltas
  }

  /**
   `internal_transition`: advance the global time by `time_advance()`,
   clear the queued deltas, and resolve every due candidate in ascending
   volume id order. The next internal time becomes `PosInf` until the next
   external transition lowers it.
   */
  function Internal(s: ColliderState, ph: Physics): (r: Result<ColliderState, ColliderError>)
    requires TimeAdvance(s).Fin?
    ensures r.Success? ==> r.value.globalTime == s.globalTime + TimeAdvance(s).r
    ensures r.Success? ==> r.value.nextInternalTime == PosInf
  {
    var g := FireTime(s);
    AfterFiring(g, FireAll(Firing(s.volumes, []), ph, g, SortedVolumeIds(s.volumes.Keys)))
  }

  /** The global time of the internal transition. */
  function FireTime(s: ColliderState): real
    requires TimeAdvance(s).Fin?
  {
    s.globalTime + TimeAdvance(s).r
  }

  /** The state at time `g` after the firing `r`, with nothing scheduled, or its failure. */
  function AfterFiring(g: real, r: Result<Firing, ColliderError>): Result<ColliderState, ColliderError> {
    match r
    case Failure(e) => Failure(e)
    case Success(f) => Success(ColliderState(g, f.deltas, f.volumes, PosInf))
  }

  /** The internal transition fails exactly when a due candidate cannot be resolved. */
  lemma InternalSucceeds(s: ColliderState, ph: Physics)
    requires TimeAdvance(s).Fin?
    ensures Internal(s, ph).Success? <==> AllResolve(s.volumes, ph, FireTime(s), SortedVolumeIds(s.volumes.Keys))
  {
    SortedVolumeIdsAscending(s.volumes.Keys);
    FireAllEffect(s.volumes, ph, FireTime(s), SortedVolumeIds(s.volumes.Keys));
  }

  /**
   A successful internal transition emits the resolutions of the due
   candidates in volume id order, two deltas each.
   */
  lemma InternalOutput(s: ColliderState, ph: Physics)
    requires TimeAdvance(s).Fin? && Internal(s, ph).Success?
    ensures AllResolve(s.volumes, ph, FireTime(s), SortedVolumeIds(s.volumes.Keys))
    ensures Output(Internal(s, ph).value) == FiredDeltas(s.volumes, ph, FireTime(s), SortedVolumeIds(s.volumes.Keys))
  {
    SortedVolumeIdsAscending(s.volumes.Keys);
    FireAllEffect(s.volumes, ph, FireTime(s), SortedVolumeIds(s.volumes.Keys));
  }

  /**
   A successful internal transition drops exactly the due candidates, so
   every remaining candidate is later than the current time.
   */
  lemma InternalCandidates(s: ColliderState, ph: Physics)
    requires TimeAdvance(s).Fin? && Internal(s, ph).Success?
    ensures Internal(s, ph).value.volumes.Keys == s.volumes.Keys
    ensures forall k | k in s.volumes ::
      Internal(s, ph).value.volumes[k] ==
        if Fires(s.volumes, FireTime(s), k) then s.volumes[k].(time := PosInf) else s.volumes[k]
    ensures forall k | k in s.volumes :: Lt(Fin(FireTime(s)), Internal(s, ph).value.volumes[k].time)
  {
    var ks := SortedVolumeIds(s.volumes.Keys);
    SortedVolumeIdsAscending(s.volumes.Keys);
    FireAllEffect(s.volumes, ph, FireTime(s), ks);
    var c := Cleared(s.volumes, FireTime(s), ks);
    assert Internal(s, ph).value.volumes == c;
  }

  /**
   With the rules of `blocking_collider_rules` and well-formed snapshots,
   each pair of deltas the internal transition emits is addressed to the
   candidate's two particles in their two volumes, defers nothing, conserves
   momentum, and changes the relative velocity by twice the code's impulse
   at the current time.
   */
  lemma ResolutionConservesMomentum(vols: Volumes, sqrt: real -> real, g: real, k: seq<int>, dims: nat)
    requires k in vols && Resolves(vols, PhysicsOf(sqrt), g, k)
    requires Valid(vols[k].snapshot[vols[k].lhs], dims)
    requires Valid(vols[vols[k].rhsVolume].snapshot[vols[k].rhs], dims)
    ensures Resolution(vols, PhysicsOf(sqrt), g, k)[0].particleId == vols[k].snapshot[vols[k].lhs].id
    ensures Resolution(vols, PhysicsOf(sqrt), g, k)[1].particleId == vols[vols[k].rhsVolume].snapshot[vols[k].rhs].id
    ensures Resolution(vols, PhysicsOf(sqrt), g, k)[0].deferredTime == PosInf
    ensures Resolution(vols, PhysicsOf(sqrt), g, k)[1].deferredTime == PosInf
    ensures forall i | 0 <= i < dims ::
      MomentumChange(vols[k].snapshot[vols[k].lhs].mass, vols[vols[k].rhsVolume].snapshot[vols[k].rhs].mass,
        Resolution(vols, PhysicsOf(sqrt), g, k)[0].dv, Resolution(vols, PhysicsOf(sqrt), g, k)[1].dv, i) == 0.0
    ensures var ds := Resolution(vols, PhysicsOf(sqrt), g, k);
      forall i | 0 <= i < dims :: ds[0].deferredDv[i] == 0.0 && ds[1].deferredDv[i] == 0.0
    ensures var ds := Resolution(vols, PhysicsOf(sqrt), g, k);
      var l := AdvanceToTime(vols[k].snapshot[vols[k].lhs], g);
      var r := AdvanceToTime(vols[vols[k].rhsVolume].snapshot[vols[k].rhs], g);
      && Distance(l, r, sqrt) != 0.0
      && forall i | 0 <= i < dims :: ds[1].dv[i] - ds[0].dv[i] == 2.0 * CodeImpulse(l, r, Distance(l, r, sqrt))[i]
  {
    var v := vols[k];
    var lp, rp := v.snapshot[v.lhs], vols[v.rhsVolume].snapshot[v.rhs];
    PhysicsOfIsRules(sqrt, lp, rp, g, dims);
  }

  /**
   `confluence_transition`: the internal transition, then the external
   one with no elapsed time.
   */
  function Confluence(s: ColliderState, msgs: seq<Announcement>, rules: Rules): (r: Result<ColliderState, ColliderError>)
    requires TimeAdvance(s).Fin?
    ensures r.Success? <==> Internal(s, rules.ph).Success?
    ensures r.Success? ==> r.value.globalTime == FireTime(s)
    ensures r.Success? ==> r.value.pendingDeltas == Internal(s, rules.ph).value.pendingDeltas
  {
    match Internal(s, rules.ph)
    case Failure(e) => Failure(e)
    case Success(t) => Success(External(t, 0.0, msgs, rules))
  }

  /**
   The confluent transition records every announcement after the firing:
   the known volumes are the old ones and the announcing ones, and the
   candidates are those left by the internal step, rescanned at the firing
   time for exactly the announcing volumes.
   */
  lemma ConfluenceAnnounces(s: ColliderState, msgs: seq<Announcement>, rules: Rules)
    requires TimeAdvance(s).Fin? && SearchLowers(rules)
    requires Confluence(s, msgs, rules).Success?
    ensures Internal(s, rules.ph).Success?
    ensures Confluence(s, msgs, rules).value.volumes.Keys == s.volumes.Keys + Announced(msgs)
    ensures Rescanned(RegisterAll(Internal(s, rules.ph).value.volumes, msgs), Confluence(s, msgs, rules).value.volumes,
                      rules.ph, FireTime(s), Announced(msgs))
  {
    InternalCandidates(s, rules.ph);
    ExternalCandidates(Internal(s, rules.ph).value, 0.0, msgs, rules);
  }

  /**
   After the confluent transition the next internal time is the earliest
   candidate time, or infinity when there is none: the internal step
   clears it and the announcements lower it again.
   */
  lemma ConfluenceNext(s: ColliderState, msgs: seq<Announcement>, rules: Rules)
    requires TimeAdvance(s).Fin?
    requires Confluence(s, msgs, rules).Success?
    ensures forall k | k in Confluence(s, msgs, rules).value.volumes ::
      Le(Confluence(s, msgs, rules).value.nextInternalTime, Confluence(s, msgs, rules).value.volumes[k].time)
    ensures Confluence(s, msgs, rules).value.nextInternalTime == PosInf
      || exists k :: k in Confluence(s, msgs, rules).value.volumes
           && Confluence(s, msgs, rules).value.nextInternalTime == Confluence(s, msgs, rules).value.volumes[k].time
  {
    ExternalNext(Internal(s, rules.ph).value, 0.0, msgs, rules);
  }

  /**
   Without announcements the confluent transition is the internal one,
   except that the next internal time is lowered again to the earliest
   remaining candidate, which is later than the current time.
   */
  lemma ConfluenceWithoutAnnouncements(s: ColliderState, rules: Rules)
    requires TimeAdvance(s).Fin?
    requires Internal(s, rules.ph).Success?
    ensures Confluence(s, [], rules).value.volumes == Internal(s, rules.ph).value.volumes
    ensures Confluence(s, [], rules).value.pendingDeltas == Internal(s, rules.ph).value.pendingDeltas
    ensures Confluence(s, [], rules).value.globalTime == Internal(s, rules.ph).value.globalTime
    ensures Lt(Fin(FireTime(s)), Confluence(s, [], rules).value.nextInternalTime)
    ensures forall k | k in Confluence(s, [], rules).value.volumes ::
      Le(Confluence(s, [], rules).value.nextInternalTime, Confluence(s, [], rules).value.volumes[k].time)
    ensures Confluence(s, [], rules).value.nextInternalTime == PosInf
      || exists k :: k in Confluence(s, [], rules).value.volumes
           && Confluence(s, [], rules).value.nextInternalTime == Confluence(s, [], rules).value.volumes[k].time
  {
    var t := Internal(s, rules.ph).value;
    InternalCandidates(s, rules.ph);
    assert Announced([]) == {};
    assert DirtyIds([]) == [];
    ExternalNext(t, 0.0, [], rules);
  }
}
