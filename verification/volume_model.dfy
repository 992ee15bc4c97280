/**
 The volume: an event-driven component that owns the particles inside one
 rectangular region, releases those that reach a wall, flushes deferred
 velocity changes when they fall due, and accepts entering particles and
 velocity deltas.
 */
module Volume {
  import opened ExtReal
  import opened Ordering
  import opened Particles
  import opened Deltas
  import opened Moving
  import opened Announcements

  /**
   `volume_model::state_type`. `particles` is keyed by particle id; the
   three pending lists are what the next output reports.
   */
  datatype VolumeState = VolumeState(
    volumeId: seq<int>,
    corner: seq<real>,
    size: seq<Ext>,
    particles: map<nat, Particle>,
    pendingUpdates: seq<nat>,
    pendingRemovals: seq<nat>,
    pendingMoves: seq<MoveMsg>,
    nextInternalTime: Ext,
    globalTime: real)

  /** The number of dimensions, `DIMS`. */
  function Dims(s: VolumeState): nat {
    |s.volumeId|
  }

  /** A particle a volume of `dims` dimensions can hold. */
  predicate Fits(p: Particle, dims: nat) {
    HasDims(p, dims) && p.deferredTime != NegInf
  }

  /**
   The state invariant: the geometry has `DIMS` components, every particle
   is stored under its own id and fits, every particle in flight fits, and
   every id reported as changed is resident.
   */
  predicate Inv(s: VolumeState) {
    && |s.corner| == Dims(s) && |s.size| == Dims(s)
    && MapFits(s.particles, Dims(s))
    && (forall i | 0 <= i < |s.pendingMoves| :: Fits(s.pendingMoves[i].particle, Dims(s)))
    && (forall i | 0 <= i < |s.pendingUpdates| :: s.pendingUpdates[i] in s.particles)
  }

  /** The ids of a list of particles, in order. */
  function Ids(ps: seq<Particle>): (r: seq<nat>)
    ensures |r| == |ps|
    ensures forall i :: 0 <= i < |ps| ==> r[i] == ps[i].id
  {
    seq(|ps|, i requires 0 <= i < |ps| => ps[i].id)
  }

  /** The position of the last particle in `ps` with id `k`. */
  function LastIndex(ps: seq<Particle>, k: nat): (i: nat)
    requires k in Ids(ps)
    ensures i < |ps| && ps[i].id == k
    ensures forall j :: i < j < |ps| ==> ps[j].id != k
    decreases |ps|
  {
    var n := |ps| - 1;
    assert Ids(ps) == Ids(ps[..n]) + [ps[n].id];
    if ps[n].id == k then n
    else
      assert forall j :: 0 <= j < n ==> ps[..n][j] == ps[j];
      LastIndex(ps[..n], k)
  }

  /**
   Store each particle of `ps` under its id, in order: the map gains the
   ids of `ps`, a later particle with the same id overwrites an earlier
   one, and every other entry is kept.
   */
  function Insert(m: map<nat, Particle>, ps: seq<Particle>): (r: map<nat, Particle>)
    ensures forall k :: k in r <==> k in m || k in Ids(ps)
    ensures forall k | k in Ids(ps) :: r[k] == ps[LastIndex(ps, k)]
    ensures forall k | k in m && k !in Ids(ps) :: r[k] == m[k]
    decreases |ps|
  {
    if ps == [] then m
    else
      var n := |ps| - 1;
      assert Ids(ps) == Ids(ps[..n]) + [ps[n].id];
      assert forall j :: 0 <= j < n ==> ps[..n][j] == ps[j];
      Insert(m, ps[..n])[ps[n].id := ps[n]]
  }

  /**
   The constructor: the particles stored by id, every one of them reported
   as changed, no wake-up scheduled. The source leaves `global_time`
   uninitialised; the model starts it at 0.
   */
  function Init(volumeId: seq<int>, corner: seq<real>, size: seq<Ext>, ps: seq<Particle>): (s: VolumeState)
    ensures forall k :: k in s.particles <==> k in Ids(ps)
    ensures forall k | k in Ids(ps) :: s.particles[k] == ps[LastIndex(ps, k)]
    ensures |s.pendingUpdates| == |ps| && forall i :: 0 <= i < |ps| ==> s.pendingUpdates[i] == ps[i].id
    ensures s.pendingRemovals == [] && s.pendingMoves == []
    ensures s.nextInternalTime == PosInf && s.globalTime == 0.0
  {
    VolumeState(volumeId, corner, size, Insert(map[], ps), Ids(ps), [], [], PosInf, 0.0)
  }

  /** A volume built from fitting particles satisfies the invariant. */
  lemma InitInv(volumeId: seq<int>, corner: seq<real>, size: seq<Ext>, ps: seq<Particle>)
    requires |corner| == |volumeId| && |size| == |volumeId|
    requires forall i :: 0 <= i < |ps| ==> Fits(ps[i], |volumeId|)
    ensures Inv(Init(volumeId, corner, size, ps))
  {
    var s := Init(volumeId, corner, size, ps);
    forall k | k in s.particles ensures s.particles[k].id == k && Fits(s.particles[k], |volumeId|) {
      assert s.particles[k] == ps[LastIndex(ps, k)];
    }
    forall i | 0 <= i < |s.pendingUpdates| ensures s.pendingUpdates[i] in s.particles {
      assert s.pendingUpdates[i] == Ids(ps)[i];
    }
  }

  /** What one output produces: the leaving particles and at most one announcement. */
  datatype Outputs = Outputs(leaving: seq<MoveMsg>, announcements: seq<Announcement>)

  /** Whether anything is waiting to be reported. */
  predicate Pending(s: VolumeState) {
    |s.pendingMoves| > 0 || |s.pendingUpdates| > 0
  }

  /**
   `output`: one leaving message per pending move, and one announcement
   with the id, the changed and removed ids and a copy of the particles
   exactly when a move or an update is pending.
   */
  function Output(s: VolumeState): (o: Outputs)
    ensures o.leaving == s.pendingMoves
    ensures |o.announcements| == (if Pending(s) then 1 else 0)
    ensures forall a | a in o.announcements ::
      a == Announcement(s.volumeId, s.pendingUpdates, s.pendingRemovals, s.particles)
  {
    Outputs(
      s.pendingMoves,
      if Pending(s) then [Announcement(s.volumeId, s.pendingUpdates, s.pendingRemovals, s.particles)] else [])
  }

  /**
   `time_advance`: zero while something is waiting to be reported,
   otherwise the time left until the next wake-up, never negative.
   */
  function TimeAdvance(s: VolumeState): (t: Ext)
    ensures Le(Fin(0.0), t)
    ensures Pending(s) ==> t == Fin(0.0)
    ensures t == PosInf <==> !Pending(s) && s.nextInternalTime == PosInf
    ensures !Pending(s) && Le(Fin(s.globalTime), s.nextInternalTime) ==>
      s.nextInternalTime == Shift(s.globalTime, t)
    ensures !Pending(s) && Lt(s.nextInternalTime, Fin(s.globalTime)) ==> t == Fin(0.0)
  {
    if Pending(s) then Fin(0.0)
    else Max(Minus(s.nextInternalTime, s.globalTime), Fin(0.0))
  }

  /** `move_out_time` in this volume's box; a particle of the wrong shape never leaves. */
  function ExitTime(s: VolumeState, v: Particle): Ext {
    if BoxFits(v, s.corner, s.size) then MoveOutTime(v, s.corner, s.size) else PosInf
  }

  /** `move_out_destination` in this volume's box. */
  function Destination(s: VolumeState, v: Particle): seq<int> {
    if BoxFits(v, s.corner, s.size) && |s.volumeId| == |s.corner| then
      MoveOutDestination(v, s.corner, s.size, s.volumeId)
    else s.volumeId
  }

  /**
   What the scan of the internal transition needs from the volume's box:
   each particle's exit time and destination.
   */
  datatype Box = Box(exitTime: Particle -> Ext, destination: Particle -> seq<int>)

  /** The box of a volume. */
  function BoxOf(s: VolumeState): Box {
    Box(v => ExitTime(s, v), v => Destination(s, v))
  }

  /** The box of a volume computes `move_out_time` and `move_out_destination`. */
  lemma BoxOfIsGeometry(s: VolumeState, v: Particle)
    requires Inv(s) && Fits(v, Dims(s))
    ensures BoxOf(s).exitTime(v) == MoveOutTime(v, s.corner, s.size)
    ensures BoxOf(s).destination(v) == MoveOutDestination(v, s.corner, s.size, s.volumeId)
  {
  }

  /** The particle has reached its exit time, as the code compares it with the global time `g`. */
  predicate Leaves(b: Box, v: Particle, g: real) {
    Le(b.exitTime(v), Fin(g))
  }

  /** The particle stays and its deferred change is due. */
  predicate Flushes(b: Box, v: Particle, g: real) {
    !Leaves(b, v, g) && Le(v.deferredTime, Fin(g))
  }

  /** The particle stays and nothing is due. */
  predicate Untouched(b: Box, v: Particle, g: real) {
    !Leaves(b, v, g) && !Le(v.deferredTime, Fin(g))
  }

  /** The earlier of the particle's exit time and its deferred time. */
  function WakeTime(b: Box, v: Particle): Ext {
    Min(b.exitTime(v), v.deferredTime)
  }

  /**
   A particle whose deferred change fell due: `advance_to_time(apply_dv(v), g)`.
   The scan reaches this only for a particle of the right shape with a
   deferred time at or before `g`; any other particle is returned as is.
   */
  function Flushed(v: Particle, g: real): Particle {
    if HasDims(v, |v.position|) && v.deferredTime.Fin? then AdvanceToTime(ApplyDv(v), g) else v
  }

  /**
   Flushing a particle whose deferred change is due: it moves with its old
   velocity until the deferred time and with the corrected one after it,
   ends at time `g`, and has nothing left pending.
   */
  lemma FlushedIsFlush(v: Particle, g: real)
    requires Fits(v, |v.position|) && Le(v.deferredTime, Fin(g))
    ensures v.deferredTime.Fin? && v.deferredTime.r <= g
    ensures Flushed(v, g).id == v.id && Flushed(v, g).lastUpdated == g
    ensures Flushed(v, g).deferredTime == PosInf
    ensures Fits(Flushed(v, g), |v.position|)
    ensures forall i :: 0 <= i < |v.velocity| ==>
      Flushed(v, g).velocity[i] == v.velocity[i] + v.deferredDv[i]
    ensures forall i :: 0 <= i < |v.deferredDv| ==> Flushed(v, g).deferredDv[i] == 0.0
    ensures forall i :: 0 <= i < |v.position| ==>
      Flushed(v, g).position[i] == v.position[i] + v.velocity[i] * (v.deferredTime.r - v.lastUpdated)
        + (v.velocity[i] + v.deferredDv[i]) * (g - v.deferredTime.r)
  {
    var q := ApplyDv(v);
    assert Flushed(v, g) == AdvanceToTime(q, g);
  }

  /** Every particle of the map is stored under its own id. */
  predicate KeyedById(m: map<nat, Particle>) {
    forall k | k in m :: m[k].id == k
  }

  /** Every particle of the map fits and is stored under its own id. */
  predicate MapFits(m: map<nat, Particle>, dims: nat) {
    KeyedById(m) && forall k | k in m :: Fits(m[k], dims)
  }

  /** What the scan leaves under a particle's id when it stays. */
  function Settled(b: Box, g: real, v: Particle): Particle {
    if Flushes(b, v, g) then Flushed(v, g) else v
  }

  /** A settled particle keeps its id and still fits. */
  lemma SettledFits(b: Box, g: real, v: Particle, dims: nat)
    requires Fits(v, dims)
    ensures Settled(b, g, v).id == v.id && Fits(Settled(b, g, v), dims)
  {
    if Flushes(b, v, g) {
      FlushedIsFlush(v, g);
    }
  }

  /** The move message for a leaving particle. */
  function MoveOf(b: Box, v: Particle): MoveMsg {
    MoveMsg(b.destination(v), v)
  }

  /** Every element of `ks` is a key of `m`. */
  predicate KeysOf(m: map<nat, Particle>, ks: seq<nat>) {
    forall j :: 0 <= j < |ks| ==> ks[j] in m
  }

  /** Reference definition: the ids in `ks` of the particles that leave, in order. */
  function LeavingIds(m: map<nat, Particle>, b: Box, g: real, ks: seq<nat>): seq<nat>
    requires KeysOf(m, ks)
    decreases |ks|
  {
    if ks == [] then []
    else
      var n := |ks| - 1;
      LeavingIds(m, b, g, ks[..n]) + (if Leaves(b, m[ks[n]], g) then [ks[n]] else [])
  }

  /** Reference definition: the ids in `ks` of the particles that are flushed, in order. */
  function FlushedIds(m: map<nat, Particle>, b: Box, g: real, ks: seq<nat>): seq<nat>
    requires KeysOf(m, ks)
    decreases |ks|
  {
    if ks == [] then []
    else
      var n := |ks| - 1;
      FlushedIds(m, b, g, ks[..n]) + (if Flushes(b, m[ks[n]], g) then [ks[n]] else [])
  }

  /** Reference definition: the earliest wake time among the untouched particles of `ks`. */
  function EarliestWake(m: map<nat, Particle>, b: Box, g: real, ks: seq<nat>): Ext
    requires KeysOf(m, ks)
    decreases |ks|
  {
    if ks == [] then PosInf
    else
      var n := |ks| - 1;
      var rest := EarliestWake(m, b, g, ks[..n]);
      if Untouched(b, m[ks[n]], g) then Min(rest, WakeTime(b, m[ks[n]])) else rest
  }

  /** `LeavingIds` holds exactly the ids of `ks` whose particles leave. */
  lemma {:induction false} LeavingIdsMembers(m: map<nat, Particle>, b: Box, g: real, ks: seq<nat>)
    requires KeysOf(m, ks)
    ensures forall k :: k in LeavingIds(m, b, g, ks) <==> k in ks && Leaves(b, m[k], g)
    decreases |ks|
  {
    if ks != [] {
      var n := |ks| - 1;
      LeavingIdsMembers(m, b, g, ks[..n]);
      assert ks == ks[..n] + [ks[n]];
    }
  }

  /** `FlushedIds` holds exactly the ids of `ks` whose particles are flushed. */
  lemma {:induction false} FlushedIdsMembers(m: map<nat, Particle>, b: Box, g: real, ks: seq<nat>)
    requires KeysOf(m, ks)
    ensures forall k :: k in FlushedIds(m, b, g, ks) <==> k in ks && Flushes(b, m[k], g)
    decreases |ks|
  {
    if ks != [] {
      var n := |ks| - 1;
      FlushedIdsMembers(m, b, g, ks[..n]);
      assert ks == ks[..n] + [ks[n]];
    }
  }

  /** `EarliestWake` is the least wake time of an untouched particle of `ks`, or never. */
  lemma {:induction false} EarliestWakeIsLeast(m: map<nat, Particle>, b: Box, g: real, ks: seq<nat>)
    requires KeysOf(m, ks)
    ensures forall k :: k in ks && Untouched(b, m[k], g) ==> Le(EarliestWake(m, b, g, ks), WakeTime(b, m[k]))
    ensures EarliestWake(m, b, g, ks) == PosInf
      || exists k :: k in ks && Untouched(b, m[k], g) && EarliestWake(m, b, g, ks) == WakeTime(b, m[k])
    decreases |ks|
  {
    if ks != [] {
      var n := |ks| - 1;
      EarliestWakeIsLeast(m, b, g, ks[..n]);
      assert ks == ks[..n] + [ks[n]];
    }
  }

  /** The state the scan of the internal transition accumulates. */
  datatype Sweep = Sweep(
    particles: map<nat, Particle>,
    updates: seq<nat>,
    removals: seq<nat>,
    moves: seq<MoveMsg>,
    next: Ext)

  /**
   One step of the scan, for the particle stored under `k`: it leaves (a
   move and a removal), is flushed (an update), or lowers the next wake-up.
   The scan only visits keys of the map, so the first branch never applies.
   */
  function Visit(b: Box, g: real, w: Sweep, k: nat): Sweep {
    if k !in w.particles then w
    else
      var v := w.particles[k];
      if Leaves(b, v, g) then
        w.(moves := w.moves + [MoveOf(b, v)], removals := w.removals + [k])
      else if Le(v.deferredTime, Fin(g)) then
        var u := Flushed(v, g);
        w.(particles := w.particles[k := u], updates := w.updates + [u.id])
      else
        w.(next := Min(w.next, WakeTime(b, v)))
  }

  /** `keys` lists keys of `m` in strictly ascending order. */
  predicate AscendingKeys(m: map<nat, Particle>, keys: seq<nat>) {
    KeysOf(m, keys) && forall i, j :: 0 <= i < j < |keys| ==> keys[i] < keys[j]
  }

  /** The scan over the first `n` keys: the loop of the internal transition. */
  function Scan(m: map<nat, Particle>, b: Box, g: real, keys: seq<nat>, n: nat): Sweep
    requires n <= |keys|
    decreases n
  {
    if n == 0 then Sweep(m, [], [], [], PosInf)
    else Visit(b, g, Scan(m, b, g, keys, n - 1), keys[n - 1])
  }

  /** A visit settles the particle it visits and touches no other entry. */
  lemma VisitParticles(b: Box, g: real, w: Sweep, k: nat)
    requires k in w.particles
    ensures Visit(b, g, w, k).particles == w.particles[k := Settled(b, g, w.particles[k])]
  {
    var v := w.particles[k];
    if !Flushes(b, v, g) {
      assert w.particles == w.particles[k := v];
    }
  }

  /** The scan keeps the key set of the map. */
  lemma {:induction false} ScanKeys(m: map<nat, Particle>, b: Box, g: real, keys: seq<nat>, n: nat)
    requires n <= |keys|
    ensures Scan(m, b, g, keys, n).particles.Keys == m.Keys
    decreases n
  {
    if n > 0 {
      ScanKeys(m, b, g, keys, n - 1);
      var w := Scan(m, b, g, keys, n - 1);
      if keys[n - 1] in w.particles {
        VisitParticles(b, g, w, keys[n - 1]);
      }
    }
  }

  /** The scan has not touched the particles it has not yet visited. */
  lemma {:induction false} ScanUnvisited(m: map<nat, Particle>, b: Box, g: real, keys: seq<nat>, n: nat)
    requires AscendingKeys(m, keys) && n <= |keys|
    ensures Scan(m, b, g, keys, n).particles.Keys == m.Keys
    ensures forall j :: n <= j < |keys| ==> Scan(m, b, g, keys, n).particles[keys[j]] == m[keys[j]]
    decreases n
  {
    ScanKeys(m, b, g, keys, n);
    if n > 0 {
      ScanUnvisited(m, b, g, keys, n - 1);
      ScanKeys(m, b, g, keys, n - 1);
      var k := keys[n - 1];
      VisitParticles(b, g, Scan(m, b, g, keys, n - 1), k);
      forall j | n <= j < |keys|
        ensures Scan(m, b, g, keys, n).particles[keys[j]] == m[keys[j]]
      {
        assert keys[j] != k;
      }
    }
  }

  /** The next particle the scan visits is still as it was. */
  lemma ScanNextUnvisited(m: map<nat, Particle>, b: Box, g: real, keys: seq<nat>, n: nat)
    requires AscendingKeys(m, keys) && n < |keys|
    ensures keys[n] in Scan(m, b, g, keys, n).particles
    ensures Scan(m, b, g, keys, n).particles[keys[n]] == m[keys[n]]
  {
    ScanKeys(m, b, g, keys, n);
    ScanUnvisited(m, b, g, keys, n);
  }

  /** The scan leaves the `j`-th visited particle settled. */
  lemma {:induction false} ScanSettles(m: map<nat, Particle>, b: Box, g: real, keys: seq<nat>, n: nat, j: nat)
    requires AscendingKeys(m, keys) && j < n <= |keys|
    ensures keys[j] in Scan(m, b, g, keys, n).particles
    ensures Scan(m, b, g, keys, n).particles[keys[j]] == Settled(b, g, m[keys[j]])
    decreases n
  {
    var w := Scan(m, b, g, keys, n - 1);
    var k := keys[n - 1];
    ScanNextUnvisited(m, b, g, keys, n - 1);
    VisitParticles(b, g, w, k);
    if j < n - 1 {
      ScanSettles(m, b, g, keys, n - 1, j);
      assert keys[j] != k;
    }
  }

  /** The scan leaves each visited particle settled. */
  lemma ScanParticles(m: map<nat, Particle>, b: Box, g: real, keys: seq<nat>, n: nat)
    requires AscendingKeys(m, keys) && n <= |keys|
    ensures Scan(m, b, g, keys, n).particles.Keys == m.Keys
    ensures forall j :: 0 <= j < n ==> Scan(m, b, g, keys, n).particles[keys[j]] == Settled(b, g, m[keys[j]])
  {
    ScanKeys(m, b, g, keys, n);
    forall j | 0 <= j < n
      ensures Scan(m, b, g, keys, n).particles[keys[j]] == Settled(b, g, m[keys[j]])
    {
      ScanSettles(m, b, g, keys, n, j);
    }
  }

  /** The scan removes exactly the leaving particles, in key order. */
  lemma {:induction false} ScanRemovals(m: map<nat, Particle>, b: Box, g: real, keys: seq<nat>, n: nat)
    requires AscendingKeys(m, keys) && n <= |keys|
    ensures Scan(m, b, g, keys, n).removals == LeavingIds(m, b, g, keys[..n])
    decreases n
  {
    if n > 0 {
      ScanRemovals(m, b, g, keys, n - 1);
      ScanNextUnvisited(m, b, g, keys, n - 1);
      assert keys[..n][..n - 1] == keys[..n - 1];
    }
  }

  /** The scan emits one move per removal, carrying the removed particle as it was. */
  lemma {:induction false} ScanMoves(m: map<nat, Particle>, b: Box, g: real, keys: seq<nat>, n: nat)
    requires AscendingKeys(m, keys) && n <= |keys|
    ensures |Scan(m, b, g, keys, n).moves| == |Scan(m, b, g, keys, n).removals|
    ensures KeysOf(m, Scan(m, b, g, keys, n).removals)
    ensures forall i :: 0 <= i < |Scan(m, b, g, keys, n).moves| ==>
      Scan(m, b, g, keys, n).moves[i] == MoveOf(b, m[Scan(m, b, g, keys, n).removals[i]])
    decreases n
  {
    if n > 0 {
      ScanMoves(m, b, g, keys, n - 1);
      ScanNextUnvisited(m, b, g, keys, n - 1);
      var w := Scan(m, b, g, keys, n - 1);
      var k := keys[n - 1];
      var r := Visit(b, g, w, k);
      if Leaves(b, m[k], g) {
        assert r.moves == w.moves + [MoveOf(b, m[k])];
        assert r.removals == w.removals + [k];
      } else {
        assert r.moves == w.moves && r.removals == w.removals;
      }
    }
  }

  /** The scan reports exactly the flushed particles as updated. */
  lemma {:induction false} ScanUpdates(m: map<nat, Particle>, b: Box, g: real, keys: seq<nat>, n: nat)
    requires AscendingKeys(m, keys) && KeyedById(m) && n <= |keys|
    ensures Scan(m, b, g, keys, n).updates == FlushedIds(m, b, g, keys[..n])
    decreases n
  {
    if n > 0 {
      ScanUpdates(m, b, g, keys, n - 1);
      ScanNextUnvisited(m, b, g, keys, n - 1);
      assert keys[..n][..n - 1] == keys[..n - 1];
    }
  }

  /** The scan's next wake-up is the earliest wake time of the untouched particles. */
  lemma {:induction false} ScanNext(m: map<nat, Particle>, b: Box, g: real, keys: seq<nat>, n: nat)
    requires AscendingKeys(m, keys) && n <= |keys|
    ensures Scan(m, b, g, keys, n).next == EarliestWake(m, b, g, keys[..n])
    decreases n
  {
    if n > 0 {
      ScanNext(m, b, g, keys, n - 1);
      ScanNextUnvisited(m, b, g, keys, n - 1);
      assert keys[..n][..n - 1] == keys[..n - 1];
    }
  }

  /** The time of the internal transition: the global time plus `time_advance()`. */
  function InternalTime(s: VolumeState): real
    requires TimeAdvance(s).Fin?
  {
    s.globalTime + TimeAdvance(s).r
  }

  /** The particle ids in the order `std::map` visits them. */
  function Keys(s: VolumeState): seq<nat> {
    SortedIds(s.particles.Keys)
  }

  lemma KeysAscending(s: VolumeState)
    ensures AscendingKeys(s.particles, Keys(s))
    ensures forall k :: k in Keys(s) <==> k in s.particles
  {
    SortedIdsAscending(s.particles.Keys);
  }

  /** The scan of the internal transition over all particles. */
  function InternalSweep(s: VolumeState): Sweep
    requires TimeAdvance(s).Fin?
  {
    Scan(s.particles, BoxOf(s), InternalTime(s), Keys(s), |Keys(s)|)
  }

  /** The map without the entries whose keys are listed: `extract` of each. */
  function RemoveAll(m: map<nat, Particle>, ks: seq<nat>): (r: map<nat, Particle>)
    ensures forall k :: k in r <==> k in m && k !in ks
    ensures forall k | k in r :: r[k] == m[k]
  {
    map k | k in m && k !in ks :: m[k]
  }

  /**
   `internal_transition`: advance the global time by `time_advance()`,
   clear the pending lists, and scan the particles in id order: a
   particle whose exit time has come leaves (a move message and a
   removal), otherwise one whose deferred change is due is flushed and
   reported, and every other one lowers the next wake-up to its earliest
   event. The leaving particles are then removed. The simulator never
   fires the transition when the time advance is infinite.
   */
  function Internal(s: VolumeState): (r: VolumeState)
    requires TimeAdvance(s).Fin?
    ensures r.volumeId == s.volumeId && r.corner == s.corner && r.size == s.size
    ensures r.globalTime == s.globalTime + TimeAdvance(s).r
    ensures r.globalTime >= s.globalTime
    ensures Pending(s) ==> r.globalTime == s.globalTime
  {
    var w := InternalSweep(s);
    s.(particles := RemoveAll(w.particles, w.removals),
       pendingUpdates := w.updates,
       pendingRemovals := w.removals,
       pendingMoves := w.moves,
       nextInternalTime := w.next,
       globalTime := InternalTime(s))
  }

  /** After the whole scan and the removals, `k` is resident, settled, exactly when it does not leave. */
  lemma ScanResident(m: map<nat, Particle>, b: Box, g: real, keys: seq<nat>, k: nat)
    requires AscendingKeys(m, keys) && k in keys
    ensures k in m
    ensures var w := Scan(m, b, g, keys, |keys|);
      && (k in RemoveAll(w.particles, w.removals) <==> !Leaves(b, m[k], g))
      && (k in RemoveAll(w.particles, w.removals) ==> RemoveAll(w.particles, w.removals)[k] == Settled(b, g, m[k]))
  {
    var j :| 0 <= j < |keys| && keys[j] == k;
    ScanSettles(m, b, g, keys, |keys|, j);
    ScanRemovals(m, b, g, keys, |keys|);
    LeavingIdsMembers(m, b, g, keys);
    assert keys[..|keys|] == keys;
  }

  /** The particle stored under `k` stays, settled, exactly when it does not leave. */
  lemma InternalParticle(s: VolumeState, k: nat)
    requires Inv(s) && TimeAdvance(s).Fin?
    requires k in s.particles
    ensures k in Internal(s).particles <==> !Leaves(BoxOf(s), s.particles[k], InternalTime(s))
    ensures k in Internal(s).particles ==>
      Internal(s).particles[k] == Settled(BoxOf(s), InternalTime(s), s.particles[k])
  {
    KeysAscending(s);
    ScanResident(s.particles, BoxOf(s), InternalTime(s), Keys(s), k);
  }

  /**
   After the internal transition a particle is resident exactly when it was
   and did not leave, and then it is the settled version of itself.
   */
  lemma InternalParticles(s: VolumeState)
    requires Inv(s) && TimeAdvance(s).Fin?
    ensures forall k :: k in Internal(s).particles <==>
      k in s.particles && !Leaves(BoxOf(s), s.particles[k], InternalTime(s))
    ensures forall k | k in Internal(s).particles ::
      Internal(s).particles[k] == Settled(BoxOf(s), InternalTime(s), s.particles[k])
  {
    ScanKeys(s.particles, BoxOf(s), InternalTime(s), Keys(s), |Keys(s)|);
    forall k | k in s.particles
      ensures k in Internal(s).particles <==> !Leaves(BoxOf(s), s.particles[k], InternalTime(s))
      ensures k in Internal(s).particles ==>
        Internal(s).particles[k] == Settled(BoxOf(s), InternalTime(s), s.particles[k])
    {
      InternalParticle(s, k);
    }
  }

  /**
   The internal transition removes exactly the particles whose exit time
   has come, in id order, and sends each of them, as it was, to its
   destination.
   */
  lemma InternalRemovals(s: VolumeState)
    requires Inv(s) && TimeAdvance(s).Fin?
    ensures forall k :: k in Internal(s).pendingRemovals <==>
      k in s.particles && Leaves(BoxOf(s), s.particles[k], InternalTime(s))
    ensures forall i, j :: 0 <= i < j < |Internal(s).pendingRemovals| ==>
      Internal(s).pendingRemovals[i] < Internal(s).pendingRemovals[j]
    ensures |Internal(s).pendingMoves| == |Internal(s).pendingRemovals|
    ensures forall i :: 0 <= i < |Internal(s).pendingMoves| ==>
      Internal(s).pendingRemovals[i] in s.particles &&
      Internal(s).pendingMoves[i] == MoveOf(BoxOf(s), s.particles[Internal(s).pendingRemovals[i]])
  {
    var keys := Keys(s);
    var b, g := BoxOf(s), InternalTime(s);
    KeysAscending(s);
    ScanRemovals(s.particles, b, g, keys, |keys|);
    ScanMoves(s.particles, b, g, keys, |keys|);
    LeavingIdsMembers(s.particles, b, g, keys);
    LeavingIdsAscending(s.particles, b, g, keys);
    assert keys[..|keys|] == keys;
  }

  /** The ids `LeavingIds` picks from an ascending list are ascending. */
  lemma {:induction false} LeavingIdsAscending(m: map<nat, Particle>, b: Box, g: real, ks: seq<nat>)
    requires AscendingKeys(m, ks)
    ensures forall i, j :: 0 <= i < j < |LeavingIds(m, b, g, ks)| ==>
      LeavingIds(m, b, g, ks)[i] < LeavingIds(m, b, g, ks)[j]
    decreases |ks|
  {
    if ks != [] {
      var n := |ks| - 1;
      LeavingIdsAscending(m, b, g, ks[..n]);
      LeavingIdsMembers(m, b, g, ks[..n]);
      var rest := LeavingIds(m, b, g, ks[..n]);
      forall i | 0 <= i < |rest| ensures rest[i] < ks[n] {
        assert rest[i] in ks[..n];
      }
    }
  }

  /** The internal transition reports exactly the flushed particles as changed. */
  lemma InternalUpdates(s: VolumeState)
    requires Inv(s) && TimeAdvance(s).Fin?
    ensures forall k :: k in Internal(s).pendingUpdates <==>
      k in s.particles && Flushes(BoxOf(s), s.particles[k], InternalTime(s))
  {
    var keys := Keys(s);
    var b, g := BoxOf(s), InternalTime(s);
    KeysAscending(s);
    ScanUpdates(s.particles, b, g, keys, |keys|);
    FlushedIdsMembers(s.particles, b, g, keys);
    assert keys[..|keys|] == keys;
  }

  /**
   The next wake-up after the internal transition is the earliest exit or
   deferred time among the particles left untouched, or never.
   */
  lemma InternalNext(s: VolumeState)
    requires Inv(s) && TimeAdvance(s).Fin?
    ensures forall k | k in s.particles && Untouched(BoxOf(s), s.particles[k], InternalTime(s)) ::
      Le(Internal(s).nextInternalTime, WakeTime(BoxOf(s), s.particles[k]))
    ensures Internal(s).nextInternalTime == PosInf
      || exists k :: k in s.particles && Untouched(BoxOf(s), s.particles[k], InternalTime(s))
           && Internal(s).nextInternalTime == WakeTime(BoxOf(s), s.particles[k])
  {
    var keys := Keys(s);
    var b, g := BoxOf(s), InternalTime(s);
    KeysAscending(s);
    ScanNext(s.particles, b, g, keys, |keys|);
    EarliestWakeIsLeast(s.particles, b, g, keys);
    assert keys[..|keys|] == keys;
  }

  /** The internal transition keeps the state invariant. */
  lemma InternalInv(s: VolumeState)
    requires Inv(s) && TimeAdvance(s).Fin?
    ensures Inv(Internal(s))
  {
    var r := Internal(s);
    var b, g := BoxOf(s), InternalTime(s);
    InternalParticles(s);
    InternalRemovals(s);
    InternalUpdates(s);
    forall k | k in r.particles ensures r.particles[k].id == k && Fits(r.particles[k], Dims(s)) {
      SettledFits(b, g, s.particles[k], Dims(s));
    }
  }

  /**
   The volume never schedules a wake-up at or before the time it has
   reached: once nothing is pending, its time advance is positive.
   */
  lemma InternalMakesProgress(s: VolumeState)
    requires Inv(s) && TimeAdvance(s).Fin?
    ensures Internal(s).nextInternalTime == PosInf || Lt(Fin(Internal(s).globalTime), Internal(s).nextInternalTime)
    ensures !Pending(Internal(s)) ==> Lt(Fin(0.0), TimeAdvance(Internal(s)))
  {
    InternalNext(s);
  }

  /**
   The announcement the volume sends after its internal transition: it
   names the removed particles in the order of the leaving messages, none
   of them is in the snapshot, and every particle reported as changed is.
   */
  lemma InternalAnnouncement(s: VolumeState)
    requires Inv(s) && TimeAdvance(s).Fin?
    requires Pending(Internal(s))
    ensures |Output(Internal(s)).announcements| == 1
    ensures |Output(Internal(s)).leaving| == |Output(Internal(s)).announcements[0].removed|
    ensures forall i :: 0 <= i < |Output(Internal(s)).leaving| ==>
      Output(Internal(s)).leaving[i].particle.id == Output(Internal(s)).announcements[0].removed[i]
    ensures forall k | k in Output(Internal(s)).announcements[0].removed ::
      k !in Output(Internal(s)).announcements[0].snapshot
    ensures forall k | k in Output(Internal(s)).announcements[0].changed ::
      k in Output(Internal(s)).announcements[0].snapshot
  {
    InternalReportable(s);
    OutputAnnouncement(Internal(s));
  }

  /** After an internal transition the pending lists agree with each other and with the particles. */
  lemma InternalReportable(s: VolumeState)
    requires Inv(s) && TimeAdvance(s).Fin?
    ensures Reportable(Internal(s))
  {
    var r := Internal(s);
    InternalRemovals(s);
    InternalParticles(s);
    InternalInv(s);
    assert forall i :: 0 <= i < |r.pendingMoves| ==> r.pendingMoves[i].particle.id == r.pendingRemovals[i];
    assert forall k | k in r.pendingRemovals :: k !in r.particles;
  }

  /**
   The pending lists of `r` agree: every changed id is resident, and the
   leaving messages carry the removed ids in order, none of them resident.
   */
  predicate Reportable(r: VolumeState) {
    && (forall i | 0 <= i < |r.pendingUpdates| :: r.pendingUpdates[i] in r.particles)
    && |r.pendingMoves| == |r.pendingRemovals|
    && (forall i :: 0 <= i < |r.pendingMoves| ==> r.pendingMoves[i].particle.id == r.pendingRemovals[i])
    && (forall k | k in r.pendingRemovals :: k !in r.particles)
  }

  /** What the announcement of a state with pending work carries over from its pending lists. */
  lemma OutputAnnouncement(r: VolumeState)
    requires Pending(r) && Reportable(r)
    ensures |Output(r).announcements| == 1
    ensures |Output(r).leaving| == |Output(r).announcements[0].removed|
    ensures forall i :: 0 <= i < |Output(r).leaving| ==>
      Output(r).leaving[i].particle.id == Output(r).announcements[0].removed[i]
    ensures forall k | k in Output(r).announcements[0].removed :: k !in Output(r).announcements[0].snapshot
    ensures forall k | k in Output(r).announcements[0].changed :: k in Output(r).announcements[0].snapshot
  {
    assert Output(r).announcements[0] in Output(r).announcements;
  }

  /** The particles of the entering messages addressed to volume `volumeId`, in order. */
  function Addressed(volumeId: seq<int>, msgs: seq<MoveMsg>): seq<Particle>
    decreases |msgs|
  {
    if msgs == [] then []
    else
      var n := |msgs| - 1;
      Addressed(volumeId, msgs[..n]) + (if msgs[n].destination == volumeId then [msgs[n].particle] else [])
  }

  /** `Addressed` keeps exactly the particles of the messages addressed to the volume. */
  lemma {:induction false} AddressedMembers(volumeId: seq<int>, msgs: seq<MoveMsg>)
    ensures forall p :: p in Addressed(volumeId, msgs) <==> MoveMsg(volumeId, p) in msgs
    decreases |msgs|
  {
    if msgs != [] {
      var n := |msgs| - 1;
      AddressedMembers(volumeId, msgs[..n]);
      assert msgs == msgs[..n] + [msgs[n]];
    }
  }

  /** No message addressed to the volume, no particle admitted. */
  lemma {:induction false} AddressedNone(volumeId: seq<int>, msgs: seq<MoveMsg>)
    requires forall i :: 0 <= i < |msgs| ==> msgs[i].destination != volumeId
    ensures Addressed(volumeId, msgs) == []
    decreases |msgs|
  {
    if msgs != [] {
      AddressedNone(volumeId, msgs[..|msgs| - 1]);
    }
  }

  /**
   The entering half of `external_transition`: every particle addressed to
   this volume is stored under its id, replacing any resident with that id,
   and reported as changed.
   */
  function Enter(s: VolumeState, msgs: seq<MoveMsg>): (r: VolumeState)
    ensures r == s.(particles := r.particles, pendingUpdates := r.pendingUpdates)
    ensures r.particles == Insert(s.particles, Addressed(s.volumeId, msgs))
    ensures r.pendingUpdates == s.pendingUpdates + Ids(Addressed(s.volumeId, msgs))
  {
    var ps := Addressed(s.volumeId, msgs);
    s.(particles := Insert(s.particles, ps), pendingUpdates := s.pendingUpdates + Ids(ps))
  }

  /** Entering particles that fit keeps the invariant. */
  lemma EnterInv(s: VolumeState, msgs: seq<MoveMsg>)
    requires Inv(s)
    requires forall i :: 0 <= i < |msgs| ==> Fits(msgs[i].particle, Dims(s))
    ensures Inv(Enter(s, msgs))
  {
    var ps := Addressed(s.volumeId, msgs);
    var r := Enter(s, msgs);
    AddressedMembers(s.volumeId, msgs);
    forall k | k in r.particles ensures r.particles[k].id == k && Fits(r.particles[k], Dims(s)) {
      if k in Ids(ps) {
        var v := ps[LastIndex(ps, k)];
        assert v in ps;
        assert MoveMsg(s.volumeId, v) in msgs;
      }
    }
    forall i | 0 <= i < |r.pendingUpdates| ensures r.pendingUpdates[i] in r.particles {
      if i >= |s.pendingUpdates| {
        assert r.pendingUpdates[i] == Ids(ps)[i - |s.pendingUpdates|];
      }
    }
  }

  /** The effect of one delta on the particles in flight: applied to those with its particle id. */
  function ApplyToMoves(ms: seq<MoveMsg>, d: DeltaMsg, dims: nat): (r: seq<MoveMsg>)
    requires DeltaHasDims(d, dims)
    requires forall i :: 0 <= i < |ms| ==> HasDims(ms[i].particle, dims)
    ensures |r| == |ms|
    ensures forall i :: 0 <= i < |ms| ==> r[i].destination == ms[i].destination
    ensures forall i :: 0 <= i < |ms| ==> HasDims(r[i].particle, dims)
  {
    seq(|ms|, i requires 0 <= i < |ms| && HasDims(ms[i].particle, dims) && DeltaHasDims(d, dims) =>
      if ms[i].particle.id == d.particleId then ms[i].(particle := ApplyDelta(ms[i].particle, d)) else ms[i])
  }

  /**
   One delta of `external_transition`. A delta for this volume is applied
   to the resident particle with its id, which is reported as changed; if
   there is none, it is applied to any particle in flight with that id. A
   delta for another volume is ignored.
   */
  function DeliverOne(s: VolumeState, d: DeltaMsg): (r: VolumeState)
    requires Inv(s) && DeltaValid(d, Dims(s))
    ensures Inv(r)
    ensures r.volumeId == s.volumeId && r.corner == s.corner && r.size == s.size
    ensures r.globalTime == s.globalTime && r.nextInternalTime == s.nextInternalTime
    ensures r.pendingRemovals == s.pendingRemovals
    ensures r.particles.Keys == s.particles.Keys
    ensures d.volumeId != s.volumeId ==> r == s
    ensures d.volumeId == s.volumeId && d.particleId in s.particles ==>
      && r.particles == s.particles[d.particleId := ApplyDelta(s.particles[d.particleId], d)]
      && r.pendingUpdates == s.pendingUpdates + [d.particleId]
      && r.pendingMoves == s.pendingMoves
    ensures d.volumeId == s.volumeId && d.particleId !in s.particles ==>
      && r.particles == s.particles && r.pendingUpdates == s.pendingUpdates
      && |r.pendingMoves| == |s.pendingMoves|
      && forall i :: 0 <= i < |s.pendingMoves| ==>
           r.pendingMoves[i] == if s.pendingMoves[i].particle.id == d.particleId
             then s.pendingMoves[i].(particle := ApplyDelta(s.pendingMoves[i].particle, d))
             else s.pendingMoves[i]
  {
    if d.volumeId != s.volumeId then s
    else if d.particleId in s.particles then
      var par := ApplyDelta(s.particles[d.particleId], d);
      s.(particles := s.particles[d.particleId := par], pendingUpdates := s.pendingUpdates + [par.id])
    else
      s.(pendingMoves := ApplyToMoves(s.pendingMoves, d, Dims(s)))
  }

  /** Every delta of the list is well formed for `dims` dimensions. */
  predicate DeltasValid(ds: seq<DeltaMsg>, dims: nat) {
    forall i :: 0 <= i < |ds| ==> DeltaValid(ds[i], dims)
  }

  /** The deltas of `external_transition`, delivered in order. */
  function Deliver(s: VolumeState, ds: seq<DeltaMsg>): (r: VolumeState)
    requires Inv(s) && DeltasValid(ds, Dims(s))
    ensures Inv(r)
    ensures r.volumeId == s.volumeId && r.corner == s.corner && r.size == s.size
    ensures r.globalTime == s.globalTime && r.nextInternalTime == s.nextInternalTime
    ensures r.pendingRemovals == s.pendingRemovals
    ensures r.particles.Keys == s.particles.Keys
    ensures |r.pendingUpdates| >= |s.pendingUpdates| && r.pendingUpdates[..|s.pendingUpdates|] == s.pendingUpdates
    decreases |ds|
  {
    if ds == [] then s
    else
      var n := |ds| - 1;
      DeliverOne(Deliver(s, ds[..n]), ds[n])
  }

  /** Every entering particle fits `dims` dimensions. */
  predicate EnteringFit(msgs: seq<MoveMsg>, dims: nat) {
    forall i :: 0 <= i < |msgs| ==> Fits(msgs[i].particle, dims)
  }

  /**
   `external_transition`: advance the global time by the elapsed time,
   admit the entering particles, then apply the deltas.
   */
  function External(s: VolumeState, dt: real, entering: seq<MoveMsg>, deltas: seq<DeltaMsg>): (r: VolumeState)
    requires Inv(s) && EnteringFit(entering, Dims(s)) && DeltasValid(deltas, Dims(s))
    ensures Inv(r)
    ensures r.volumeId == s.volumeId && r.corner == s.corner && r.size == s.size
    ensures r.globalTime == s.globalTime + dt && r.nextInternalTime == s.nextInternalTime
    ensures r.pendingRemovals == s.pendingRemovals
    ensures forall k :: k in r.particles <==> k in s.particles || k in Ids(Addressed(s.volumeId, entering))
    ensures s.pendingUpdates + Ids(Addressed(s.volumeId, entering)) <= r.pendingUpdates
  {
    var t := s.(globalTime := s.globalTime + dt);
    EnterInv(t, entering);
    Deliver(Enter(t, entering), deltas)
  }

  /**
   The external transition in full: the resident particles are the old
   ones and the admitted ones, each with the deltas addressed to it applied
   in order; the updates report the admitted particles and then one id per
   delta applied to a resident particle.
   */
  lemma ExternalEffect(s: VolumeState, dt: real, entering: seq<MoveMsg>, deltas: seq<DeltaMsg>)
    requires Inv(s) && EnteringFit(entering, Dims(s)) && DeltasValid(deltas, Dims(s))
    ensures var e := Insert(s.particles, Addressed(s.volumeId, entering));
      forall k | k in e ::
        && k in External(s, dt, entering, deltas).particles
        && HasDims(e[k], Dims(s)) && DeltasValid(DeltasFor(s.volumeId, k, deltas), Dims(s))
        && External(s, dt, entering, deltas).particles[k] == ApplyDeltas(e[k], DeltasFor(s.volumeId, k, deltas))
    ensures External(s, dt, entering, deltas).pendingUpdates ==
      s.pendingUpdates + Ids(Addressed(s.volumeId, entering))
        + ResidentTargets(s.volumeId, Insert(s.particles, Addressed(s.volumeId, entering)).Keys, deltas)
  {
    var t := s.(globalTime := s.globalTime + dt);
    var e := Enter(t, entering);
    EnterInv(t, entering);
    assert External(s, dt, entering, deltas) == Deliver(e, deltas);
    assert e.volumeId == s.volumeId && Dims(e) == Dims(s);
    assert e.particles == Insert(s.particles, Addressed(s.volumeId, entering));
    assert e.pendingUpdates == s.pendingUpdates + Ids(Addressed(s.volumeId, entering));
    forall k | k in e.particles
      ensures && k in Deliver(e, deltas).particles
              && DeltasValid(DeltasFor(s.volumeId, k, deltas), Dims(s))
              && Deliver(e, deltas).particles[k] == ApplyDeltas(e.particles[k], DeltasFor(s.volumeId, k, deltas))
    {
      DeliverParticle(e, deltas, k);
    }
    DeliverUpdates(e, deltas);
  }

  /** A particle sent to this volume is resident after the external transition and reported as changed. */
  lemma ExternalAdmits(s: VolumeState, dt: real, entering: seq<MoveMsg>, deltas: seq<DeltaMsg>, p: Particle)
    requires Inv(s) && EnteringFit(entering, Dims(s)) && DeltasValid(deltas, Dims(s))
    requires MoveMsg(s.volumeId, p) in entering
    ensures p.id in External(s, dt, entering, deltas).particles
    ensures p.id in External(s, dt, entering, deltas).pendingUpdates
  {
    var ps := Addressed(s.volumeId, entering);
    var r := External(s, dt, entering, deltas);
    assert p in ps by {
      AddressedMembers(s.volumeId, entering);
    }
    var j :| 0 <= j < |ps| && ps[j] == p;
    var pre := s.pendingUpdates + Ids(ps);
    assert pre[|s.pendingUpdates| + j] == p.id;
    assert pre <= r.pendingUpdates;
    assert r.pendingUpdates[|s.pendingUpdates| + j] == p.id;
  }

  /** Deltas addressed elsewhere change nothing. */
  lemma {:induction false} DeliverMisaddressed(s: VolumeState, ds: seq<DeltaMsg>)
    requires Inv(s) && DeltasValid(ds, Dims(s))
    requires forall i :: 0 <= i < |ds| ==> ds[i].volumeId != s.volumeId
    ensures Deliver(s, ds) == s
    decreases |ds|
  {
    if ds != [] {
      DeliverMisaddressed(s, ds[..|ds| - 1]);
    }
  }

  /** Messages all addressed to other volumes only move the clock. */
  lemma ExternalMisaddressed(s: VolumeState, dt: real, entering: seq<MoveMsg>, deltas: seq<DeltaMsg>)
    requires Inv(s) && EnteringFit(entering, Dims(s)) && DeltasValid(deltas, Dims(s))
    requires forall i :: 0 <= i < |entering| ==> entering[i].destination != s.volumeId
    requires forall i :: 0 <= i < |deltas| ==> deltas[i].volumeId != s.volumeId
    ensures External(s, dt, entering, deltas) == s.(globalTime := s.globalTime + dt)
  {
    var t := s.(globalTime := s.globalTime + dt);
    AddressedNone(s.volumeId, entering);
    assert Enter(t, entering) == t;
    EnterInv(t, entering);
    DeliverMisaddressed(t, deltas);
  }

  /**
   Two deltas delivered in either order leave the same particles, resident
   and in flight, and report the same changes: the result does not depend
   on the order of the message bag.
   */
  lemma DeliverCommutes(s: VolumeState, d1: DeltaMsg, d2: DeltaMsg)
    requires Inv(s) && DeltaValid(d1, Dims(s)) && DeltaValid(d2, Dims(s))
    ensures DeliverOne(DeliverOne(s, d1), d2).particles == DeliverOne(DeliverOne(s, d2), d1).particles
    ensures DeliverOne(DeliverOne(s, d1), d2).pendingMoves == DeliverOne(DeliverOne(s, d2), d1).pendingMoves
    ensures multiset(DeliverOne(DeliverOne(s, d1), d2).pendingUpdates)
      == multiset(DeliverOne(DeliverOne(s, d2), d1).pendingUpdates)
  {
    var a := DeliverOne(DeliverOne(s, d1), d2);
    var c := DeliverOne(DeliverOne(s, d2), d1);
    var here1 := d1.volumeId == s.volumeId;
    var here2 := d2.volumeId == s.volumeId;
    var res1 := d1.particleId in s.particles;
    var res2 := d2.particleId in s.particles;
    if here1 && here2 && res1 && res2 && d1.particleId == d2.particleId {
      ApplyDeltaCommutes(s.particles[d1.particleId], d1, d2);
    } else if here1 && here2 && !res1 && !res2 {
      forall i | 0 <= i < |s.pendingMoves| ensures a.pendingMoves[i] == c.pendingMoves[i] {
        var v := s.pendingMoves[i].particle;
        if v.id == d1.particleId && v.id == d2.particleId {
          ApplyDeltaCommutes(v, d1, d2);
        }
      }
    }
  }

  /**
   A delta that arrives for a particle in the instant it leaves is not
   lost: it is applied to the particle inside the leaving message.
   */
  lemma DeltaFollowsLeaver(s: VolumeState, d: DeltaMsg, i: nat)
    requires Inv(s) && DeltaValid(d, Dims(s))
    requires d.volumeId == s.volumeId && d.particleId !in s.particles
    requires i < |s.pendingMoves| && s.pendingMoves[i].particle.id == d.particleId
    ensures DeliverOne(s, d).pendingMoves[i]
      == s.pendingMoves[i].(particle := ApplyDelta(s.pendingMoves[i].particle, d))
    ensures DeliverOne(s, d).particles == s.particles
  {
  }

  /** Reference definition: the deltas of `ds` for particle `k` of volume `volumeId`, in order. */
  function DeltasFor(volumeId: seq<int>, k: nat, ds: seq<DeltaMsg>): (r: seq<DeltaMsg>)
    ensures forall d | d in r :: d in ds
    decreases |ds|
  {
    if ds == [] then []
    else
      var n := |ds| - 1;
      DeltasFor(volumeId, k, ds[..n])
        + (if ds[n].volumeId == volumeId && ds[n].particleId == k then [ds[n]] else [])
  }

  /** Reference definition: the deltas `ds` applied to `p` in order. */
  function ApplyDeltas(p: Particle, ds: seq<DeltaMsg>): (r: Particle)
    requires HasDims(p, |p.position|) && DeltasValid(ds, |p.position|)
    ensures HasDims(r, |p.position|) && |r.position| == |p.position|
    ensures r.id == p.id
    decreases |ds|
  {
    if ds == [] then p
    else
      var n := |ds| - 1;
      DeltasValidPrefix(ds, |p.position|, n);
      ApplyDelta(ApplyDeltas(p, ds[..n]), ds[n])
  }

  /**
   Reference definition: the particle ids of the deltas of `ds` addressed
   to volume `volumeId` whose particle is among `resident`, in order.
   */
  function ResidentTargets(volumeId: seq<int>, resident: set<nat>, ds: seq<DeltaMsg>): seq<nat>
    decreases |ds|
  {
    if ds == [] then []
    else
      var n := |ds| - 1;
      ResidentTargets(volumeId, resident, ds[..n])
        + (if ds[n].volumeId == volumeId && ds[n].particleId in resident then [ds[n].particleId] else [])
  }

  /** A prefix of a well-formed list of deltas is well formed. */
  lemma DeltasValidPrefix(ds: seq<DeltaMsg>, dims: nat, n: nat)
    requires DeltasValid(ds, dims) && n <= |ds|
    ensures DeltasValid(ds[..n], dims)
  {
    assert forall i | 0 <= i < n :: ds[..n][i] == ds[i];
  }

  /** The deltas for one particle are well formed when all deltas are. */
  lemma DeltasForValid(volumeId: seq<int>, k: nat, ds: seq<DeltaMsg>, dims: nat)
    requires DeltasValid(ds, dims)
    ensures DeltasValid(DeltasFor(volumeId, k, ds), dims)
  {
    var f := DeltasFor(volumeId, k, ds);
    forall i | 0 <= i < |f| ensures DeltaValid(f[i], dims) {
      assert f[i] in ds;
      var j :| 0 <= j < |ds| && ds[j] == f[i];
    }
  }

  /** One more delta for `k` is one more application. */
  lemma ApplyDeltasSnoc(p: Particle, f: seq<DeltaMsg>, d: DeltaMsg)
    requires HasDims(p, |p.position|)
    requires DeltasValid(f, |p.position|) && DeltaValid(d, |p.position|)
    ensures DeltasValid(f + [d], |p.position|)
    ensures ApplyDeltas(p, f + [d]) == ApplyDelta(ApplyDeltas(p, f), d)
  {
    assert (f + [d])[..|f|] == f;
  }

  /**
   A particle resident before the deltas is resident after them, with
   every delta addressed to it applied in order.
   */
  lemma {:induction false} DeliverParticle(s: VolumeState, ds: seq<DeltaMsg>, k: nat)
    requires Inv(s) && DeltasValid(ds, Dims(s)) && k in s.particles
    ensures k in Deliver(s, ds).particles
    ensures DeltasValid(DeltasFor(s.volumeId, k, ds), Dims(s))
    ensures Deliver(s, ds).particles[k] == ApplyDeltas(s.particles[k], DeltasFor(s.volumeId, k, ds))
    decreases |ds|
  {
    DeltasForValid(s.volumeId, k, ds, Dims(s));
    if ds != [] {
      var n := |ds| - 1;
      var d := ds[n];
      DeltasValidPrefix(ds, Dims(s), n);
      DeliverParticle(s, ds[..n], k);
      var t := Deliver(s, ds[..n]);
      assert Deliver(s, ds) == DeliverOne(t, d);
      var f := DeltasFor(s.volumeId, k, ds[..n]);
      if d.volumeId == s.volumeId && d.particleId == k {
        assert DeltasFor(s.volumeId, k, ds) == f + [d];
        ApplyDeltasSnoc(s.particles[k], f, d);
      } else {
        assert DeltasFor(s.volumeId, k, ds) == f;
      }
    }
  }

  /** The updates the deltas report: one per delta addressed to a resident particle, in order. */
  lemma {:induction false} DeliverUpdates(s: VolumeState, ds: seq<DeltaMsg>)
    requires Inv(s) && DeltasValid(ds, Dims(s))
    ensures Deliver(s, ds).pendingUpdates == s.pendingUpdates + ResidentTargets(s.volumeId, s.particles.Keys, ds)
    decreases |ds|
  {
    if ds != [] {
      var n := |ds| - 1;
      var d := ds[n];
      DeltasValidPrefix(ds, Dims(s), n);
      DeliverUpdates(s, ds[..n]);
      var t := Deliver(s, ds[..n]);
      var rt := ResidentTargets(s.volumeId, s.particles.Keys, ds[..n]);
      assert t.pendingUpdates == s.pendingUpdates + rt && t.particles.Keys == s.particles.Keys;
      assert Deliver(s, ds).pendingUpdates == DeliverOne(t, d).pendingUpdates by {
        assert Deliver(s, ds) == DeliverOne(t, d);
      }
      if d.volumeId == s.volumeId && d.particleId in s.particles {
        assert ResidentTargets(s.volumeId, s.particles.Keys, ds) == rt + [d.particleId];
        assert DeliverOne(t, d).pendingUpdates == t.pendingUpdates + [d.particleId];
        assert s.pendingUpdates + rt + [d.particleId] == s.pendingUpdates + (rt + [d.particleId]);
      } else {
        assert ResidentTargets(s.volumeId, s.particles.Keys, ds) == rt;
        assert DeliverOne(t, d).pendingUpdates == t.pendingUpdates;
      }
    }
  }

  /** One delta changes a leaving message only when addressed here to its particle, which is not resident. */
  lemma DeliverOneMove(t: VolumeState, d: DeltaMsg, i: nat)
    requires Inv(t) && DeltaValid(d, Dims(t)) && i < |t.pendingMoves|
    ensures |DeliverOne(t, d).pendingMoves| == |t.pendingMoves|
    ensures DeliverOne(t, d).pendingMoves[i] ==
      if d.volumeId == t.volumeId && d.particleId == t.pendingMoves[i].particle.id && d.particleId !in t.particles
      then t.pendingMoves[i].(particle := ApplyDelta(t.pendingMoves[i].particle, d))
      else t.pendingMoves[i]
  {
  }

  /**
   A particle in flight is changed only when no resident particle has its
   id: then every delta addressed to it is applied to it, in order.
   */
  lemma {:induction false} DeliverMove(s: VolumeState, ds: seq<DeltaMsg>, i: nat)
    requires Inv(s) && DeltasValid(ds, Dims(s)) && i < |s.pendingMoves|
    ensures |Deliver(s, ds).pendingMoves| == |s.pendingMoves|
    ensures DeltasValid(DeltasFor(s.volumeId, s.pendingMoves[i].particle.id, ds), Dims(s))
    ensures Deliver(s, ds).pendingMoves[i] ==
      if s.pendingMoves[i].particle.id in s.particles then s.pendingMoves[i]
      else s.pendingMoves[i].(particle :=
        ApplyDeltas(s.pendingMoves[i].particle, DeltasFor(s.volumeId, s.pendingMoves[i].particle.id, ds)))
    decreases |ds|
  {
    var m := s.pendingMoves[i];
    var k := m.particle.id;
    DeltasForValid(s.volumeId, k, ds, Dims(s));
    if ds != [] {
      var n := |ds| - 1;
      var d := ds[n];
      DeltasValidPrefix(ds, Dims(s), n);
      DeliverMove(s, ds[..n], i);
      var t := Deliver(s, ds[..n]);
      assert Deliver(s, ds) == DeliverOne(t, d);
      DeliverOneMove(t, d, i);
      var f := DeltasFor(s.volumeId, k, ds[..n]);
      if d.volumeId == s.volumeId && d.particleId == k {
        assert DeltasFor(s.volumeId, k, ds) == f + [d];
        ApplyDeltasSnoc(m.particle, f, d);
      } else {
        assert DeltasFor(s.volumeId, k, ds) == f;
      }
    }
  }

  /** A particle that leaves in an internal transition is no longer resident. */
  lemma LeaverNotResident(s: VolumeState, i: nat)
    requires Inv(s) && TimeAdvance(s).Fin?
    requires i < |Internal(s).pendingMoves|
    ensures Internal(s).pendingMoves[i].particle.id !in Internal(s).particles
  {
    InternalRemovals(s);
    InternalParticles(s);
    var k := Internal(s).pendingRemovals[i];
    assert k in Internal(s).pendingRemovals;
  }

  /**
   `confluence_transition`: the internal transition first, then the
   external one with no elapsed time.
   */
  function Confluence(s: VolumeState, entering: seq<MoveMsg>, deltas: seq<DeltaMsg>): (r: VolumeState)
    requires Inv(s) && TimeAdvance(s).Fin?
    requires EnteringFit(entering, Dims(s)) && DeltasValid(deltas, Dims(s))
    ensures Inv(r)
    ensures r.globalTime == InternalTime(s)
    ensures r.pendingRemovals == Internal(s).pendingRemovals
    ensures forall k :: k in r.particles <==> k in Internal(s).particles || k in Ids(Addressed(s.volumeId, entering))
    ensures Internal(s).pendingUpdates + Ids(Addressed(s.volumeId, entering)) <= r.pendingUpdates
  {
    InternalInv(s);
    External(Internal(s), 0.0, entering, deltas)
  }

  /**
   After the confluent transition, a particle left by the internal step or
   admitted by the external one is resident, with the deltas addressed to
   it applied in order.
   */
  lemma ConfluenceParticle(s: VolumeState, entering: seq<MoveMsg>, deltas: seq<DeltaMsg>, k: nat)
    requires Inv(s) && TimeAdvance(s).Fin?
    requires EnteringFit(entering, Dims(s)) && DeltasValid(deltas, Dims(s))
    requires k in Insert(Internal(s).particles, Addressed(s.volumeId, entering))
    ensures k in Confluence(s, entering, deltas).particles
    ensures HasDims(Insert(Internal(s).particles, Addressed(s.volumeId, entering))[k], Dims(s))
    ensures DeltasValid(DeltasFor(s.volumeId, k, deltas), Dims(s))
    ensures Confluence(s, entering, deltas).particles[k]
      == ApplyDeltas(Insert(Internal(s).particles, Addressed(s.volumeId, entering))[k], DeltasFor(s.volumeId, k, deltas))
  {
    InternalInv(s);
    ExternalEffect(Internal(s), 0.0, entering, deltas);
  }

  /**
   The updates after the confluent transition are those of the internal
   step, then the admitted ids, then one id per delta applied to a
   resident particle.
   */
  lemma ConfluenceUpdates(s: VolumeState, entering: seq<MoveMsg>, deltas: seq<DeltaMsg>)
    requires Inv(s) && TimeAdvance(s).Fin?
    requires EnteringFit(entering, Dims(s)) && DeltasValid(deltas, Dims(s))
    ensures Confluence(s, entering, deltas).pendingUpdates ==
      Internal(s).pendingUpdates + Ids(Addressed(s.volumeId, entering))
        + ResidentTargets(s.volumeId, Insert(Internal(s).particles, Addressed(s.volumeId, entering)).Keys, deltas)
  {
    InternalInv(s);
    ExternalEffect(Internal(s), 0.0, entering, deltas);
  }

  /** With no messages, the confluent transition is the internal one. */
  lemma ConfluenceWithoutMessages(s: VolumeState)
    requires Inv(s) && TimeAdvance(s).Fin?
    ensures Confluence(s, [], []) == Internal(s)
  {
    InternalInv(s);
    ExternalMisaddressed(Internal(s), 0.0, [], []);
  }
}
