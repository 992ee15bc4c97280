# Particle dynamics of atps, modelled in Dafny

atps is a discrete-event simulator of hard spheres. Space is cut into
rectangular volumes. Each volume owns the particles inside it and hands a
particle to a neighbouring volume when the particle reaches a wall. A
blocking collider watches every volume through the announcements that the
volumes send after each change. It keeps, per volume, the earliest
collision it has found, and at that collision's time it emits velocity
deltas back to the volumes.

This project models that core as immutable datatypes and pure functions:

- `ext_real.dfy`, module `ExtReal`: times and wall coordinates as extended
  reals (`NegInf`, `Fin(r)`, `PosInf`). The source uses floating-point
  infinities for "never" and for open boundaries.
- `vectors.dfy`, module `Vectors`: `std::array<REAL, DIMS>` as `seq<real>`,
  with the dot-product algebra the collision rules need. The square root is
  a parameter `sqrt: real -> real`. Properties that depend on it require
  `IsSqrt(sqrt)`.
- `ordering.dfy`, module `Ordering`: the ascending key order in which
  `std::map` is iterated. Particle ids use the order of the naturals. Volume
  ids use the lexicographic `std::array` order.
- `particle.dfy`, `particle_delta_message.dfy`,
  `particle_moving_message.dfy`, `particle_announcement_message.dfy`: the
  particle, the three message records, and the operations on them:
  `advance_to_time`, `apply_dv`, `apply_delta`, `move_out_time` and
  `move_out_destination`.
- `blocking_collider_rules.dfy`, module `CollisionRules`:
  `blocking_collide_time`, `blocking_collide` and
  `blocking_collide_with_deferred`.
- `volume_model.dfy`, module `Volume`: the volume's constructor, `output`,
  `time_advance`, and its internal, external and confluence transitions.
- `blocking_collider_model.dfy`, module `Collider`: the same operations for
  the blocking collider.
- `results.dfy`: `Option` and `Result`. The collider's internal transition
  returns a `Result` because the source's `map::at` lookups can throw.

Each loop over a `std::map` becomes a fold over the sorted key sequence.
Each loop over a vector of messages becomes a fold over the sequence.

The collider's transitions take a `Rules` value. It holds the collision
rules (`Physics`) and the rescan of one changed volume. `Collider.RulesOf`
builds the source's rescan from the rules, and `Collider.RulesOfSound`
proves that this rescan has the two properties (`Sound`) that the
transition lemmas assume. Collision times and impulses enter the collider
through `Physics`. `Collider.PhysicsOf` is the pair of functions of
`blocking_collider_rules.hpp`.

The code is modelled as written, including these behaviours:

- Towards a lower wall the exit candidate is `(pos - wall) / vel`, which is
  never positive (`Moving.LowerCandidateNotAhead`).
- The volume compares `move_out_time`, which is a duration, with the
  absolute global time (`Volume.Leaves`).
- `blocking_collide_time` extrapolates both particles back to time 0
  (`CollisionRules.RelPos`).
- The volume applies a delta to a particle without first extrapolating it
  to the current time.
- The collider's external transition only ever lowers
  `next_internal_time` (`Collider.AnnounceNext`).
- `blocking_collide` multiplies the relative velocity componentwise by the
  unit separation. In the head-on example of
  `CollisionRules.HeadOnImpulse`, this takes velocities +1 and -1 to +3
  and -3. The impulse itself is symmetric in the pair, so swapping the two
  particles negates both changes (`CollisionRules.BlockingCollideSwapped`).
- The collider resolves every collision with `blocking_collide`;
  `blocking_collide_with_deferred` is defined next to it but the collider
  never calls it.
- `blocking_collide_time` decides from the sign of the discriminant alone,
  plus the check against `last_updated`. It has no early exit for pairs
  that are separating or already overlapping.
- The collider's internal transition resets `next_internal_time` to
  infinity. Only the external transition lowers it again, to the minimum of
  the old value and every candidate time.
- When the lower-id particle's collision does not beat its own volume's
  candidate, the pair still goes to the other volume if it beats that one.
  That entry then names the higher id as `lhs`, although the field comment
  says `rhs` is the higher id (`Collider.Consider`).
- The rescan pairs a particle with itself when a volume is scanned with
  itself. Such a pair never collides (`CollisionRules.SelfNeverCollides`).

## Model

| member | source | states |
|---|---|---|
| Particles.AdvanceToTime | src/particle.hpp:38-52 | `last_updated` becomes `t`; each position component moves by its velocity times the elapsed time; every other field is unchanged |
| Particles.AdvanceToNow | src/particle.hpp:46-50 | advancing a particle to its own `last_updated` is the identity |
| Particles.AdvanceCompose | src/particle.hpp:46-50 | advancing to `t1` and then to `t2` equals advancing straight to `t2` |
| Particles.ApplyDv | src/particle.hpp:27-36 | the particle reaches the deferred time with its old velocity; then `deferred_dv` is added to the velocity componentwise and cleared to zeros, and the deferred time becomes infinity; id, species, mass and radius are kept |
| Particles.ApplyDvKeepsEventualVelocity | src/particle.hpp:30-34 | velocity plus pending change is the same before and after the flush, so no correction is lost |
| Deltas.ApplyDelta | src/particle_delta_message.hpp:23-32 | `dv` is added to the velocity and `deferred_dv` to the pending change, componentwise; the deferred time becomes the earlier of the two and never increases; position, `last_updated`, id, species, mass and radius are unchanged |
| Deltas.ApplyDeltaCommutes | src/particle_delta_message.hpp:26-30 | two deltas applied in either order give the same particle |
| Deltas.ApplyNoDelta | src/particle_delta_message.hpp:26-30 | a delta with zero changes and an infinite time is the identity |
| Deltas.ApplyDeltaValid | src/particle_delta_message.hpp:23-32 | a well-formed delta keeps a well-formed particle well formed |
| Ordering.SortedIds | src/volume_model.hpp:169 | the particle ids listed once each, as `std::map` iterates them |
| Ordering.SortedIdsAscending | src/volume_model.hpp:169 | the iteration order is strictly ascending |
| Ordering.LexLtIsStrictTotal | src/blocking_collider_model.hpp:119 | the `std::array` comparison used to sort volume ids is a strict total order |
| Ordering.SortedVolumeIds | src/blocking_collider_model.hpp:119-120 | sort then unique: every announced id exactly once |
| Ordering.SortedVolumeIdsAscending | src/blocking_collider_model.hpp:119-120 | sorted ids are in strictly ascending lexicographic order |
| Moving.UpperWall | src/particle_moving_message.hpp:29 | the positive-direction wall is `std::max` of the corner and the corner plus the extent: it is one of the two and no lower than either, so it is `PosInf` exactly for an open upper boundary |
| Moving.LowerWall | src/particle_moving_message.hpp:37 | the negative-direction wall is `std::min` of the corner and the corner plus the extent: it is one of the two and no higher than either |
| Moving.Candidate | src/particle_moving_message.hpp:25-43 | a dimension's candidate is finite exactly when the particle moves along it, the wall ahead is finite, and the particle is not beyond that wall |
| Moving.ExitScanIsLeast | src/particle_moving_message.hpp:22-44 | the running minimum after `n` dimensions is no larger than each of their candidates; it equals one of them or is infinity; it is infinity exactly when none offers an exit |
| Moving.MoveOutTime | src/particle_moving_message.hpp:20-46 | `move_out_time` is the least candidate over all dimensions and is attained by one; it is infinity exactly when no dimension offers an exit |
| Moving.DestScanSteps | src/particle_moving_message.hpp:50-84 | the destination is the volume id, or the id stepped by one along the dimension the scan picks |
| Moving.ExitDimIsFirstLeast | src/particle_moving_message.hpp:53-83 | the picked dimension exists exactly when the minimum is finite; its candidate is the minimum, and every earlier candidate is strictly larger, because of the strict `<` |
| Moving.DestScanIsFirstLeast | src/particle_moving_message.hpp:50-84 | after `n` dimensions the destination is unchanged exactly when no exit was found; otherwise it is stepped along the first dimension that attains the minimum |
| Moving.MoveOutDestination | src/particle_moving_message.hpp:48-85 | `move_out_destination` equals the volume id exactly when `move_out_time` is infinite; otherwise it differs in one coordinate, by +1 or -1 in the direction of motion, of the first dimension that attains the least candidate |
| Moving.AtRestNeverLeaves | src/particle_moving_message.hpp:21-55 | a particle with zero velocity has exit time infinity and keeps its volume id |
| Moving.OpenWallNoCandidate | src/particle_moving_message.hpp:29-38 | a dimension whose wall ahead is infinite contributes no candidate |
| Moving.BeyondWallNoCandidate | src/particle_moving_message.hpp:29-38 | a dimension in which the particle is already past the wall ahead is skipped |
| Moving.UpperCandidateAhead | src/particle_moving_message.hpp:29-33 | towards the upper wall the candidate is finite, non-negative, and is the time at which the particle reaches the wall |
| Moving.LowerCandidateNotAhead | src/particle_moving_message.hpp:37-41 | towards the lower wall the code's candidate is finite and never positive: it is minus the time to reach the wall |
| Moving.ExitExample | src/particle_moving_message.hpp:48-66 | corner 1, size 1, position 1.5, velocity 2: exit after 0.25, destination id + 1 |
| CollisionRules.CorePositiveMoving | src/blocking_collider_rules.hpp:32-42 | a positive discriminant implies `a > 0`, so the division by `2a` is defined |
| CollisionRules.CollideTime | src/blocking_collider_rules.hpp:11-54 | never minus infinity; infinity whenever the discriminant is at most 0, the tangent case included; a finite result is at or after both particles' `last_updated` |
| CollisionRules.EarlierRootIsFallingRoot | src/blocking_collider_rules.hpp:38-46 | the root `(-b - sqrt(core)) / 2a` is a zero of the quadratic at which it is decreasing |
| CollisionRules.BeforeEarlierRoot | src/blocking_collider_rules.hpp:38-46 | before that root the quadratic is positive |
| Vectors.DotLine | src/blocking_collider_rules.hpp:18-25 | the squared length of `p + t v`, summed over the dimensions, is `p.p + t (2 v.p + v.v t)`: the accumulated `c`, `b`, `a` |
| CollisionRules.GapIsLinear | src/blocking_collider_rules.hpp:19-20 | the vector between the centres at `t` is the relative position extrapolated to 0 plus `t` times the relative velocity |
| CollisionRules.ValueIsSquaredGap | src/blocking_collider_rules.hpp:14-25 | the quadratic at `t` is the squared distance of the centres at `t` less `(r_l + r_r)^2` |
| Vectors.DotLineLeft | src/blocking_collider_rules.hpp:39-42 | the dot product of the point `p + t v` with the direction `v` is `v.p + t v.v`, the line whose double is the slope the contact test reads |
| CollisionRules.SlopeIsClosingRate | src/blocking_collider_rules.hpp:39-42 | the slope `2at + b` is twice the dot product of the gap with the relative velocity, negative exactly when the centres approach |
| CollisionRules.CollideTimeIsContact | src/blocking_collider_rules.hpp:16-48 | at a finite collision time the quadratic is zero and falling; so the centres are exactly `r_l + r_r` apart and the gap is closing (its dot product with the relative velocity is negative) |
| CollisionRules.CollideTimeIsFirst | src/blocking_collider_rules.hpp:38-48 | at every earlier time the contact quadratic is positive: the returned root is the first one |
| CollisionRules.CollideTimeIsApart | src/blocking_collider_rules.hpp:14-48 | at every earlier time the squared distance between the centres exceeds `(r_l + r_r)^2`: the spheres are apart until the returned time |
| CollisionRules.EarlierRootBetween | src/blocking_collider_rules.hpp:38-46 | a quadratic with `a > 0` that is positive at `t0` and negative at a later `t1` has a positive discriminant, and its earlier root `(-b - s)/2a` lies strictly between them |
| CollisionRules.CollideTimeFindsSignChange | src/blocking_collider_rules.hpp:33-50 | completeness: if the contact quadratic is positive at a time at or after both `last_updated` and negative later, the collision time is finite and strictly between the two |
| CollisionRules.CollideTimeFindsOverlap | src/blocking_collider_rules.hpp:11-54 | completeness in space: two spheres apart at a time at or after both `last_updated` and overlapping later get a finite collision time strictly between, so no approaching pair is missed |
| CollisionRules.CoefficientsSymmetric | src/blocking_collider_rules.hpp:19-25 | swapping the particles negates `p` and `v` and leaves `a`, `b`, `c` unchanged |
| CollisionRules.CollideTimeSymmetric | src/blocking_collider_rules.hpp:12-53 | the collision time does not depend on the order of the pair |
| CollisionRules.SameVelocityNeverCollides | src/blocking_collider_rules.hpp:16-36 | equal velocities give `a = b = 0`, so the result is infinity even for overlapping particles |
| CollisionRules.SelfNeverCollides | src/blocking_collider_rules.hpp:16-36 | a particle paired with itself never collides |
| CollisionRules.HeadOnCollideTime | src/blocking_collider_rules.hpp:12-53 | two unit-speed spheres of radius 0.5, 10 apart, head on, meet at 4.5 |
| CollisionRules.ImpulseRule | src/blocking_collider_rules.hpp:135-169 | for any impulse vector: deltas addressed to `lhs.id` and `rhs.id`, nothing deferred, deferred time infinity, `m_l dv_l + m_r dv_r == 0`, and `dv_r - dv_l` twice the impulse, in every dimension; the last two fix `dv_l = -2 m_r/M j` and `dv_r = 2 m_l/M j` |
| CollisionRules.CodeImpulseSymmetric | src/blocking_collider_rules.hpp:139-164 | the code's impulse (relative velocity times unit separation, componentwise) is the same for both orders of the pair |
| CollisionRules.DistanceSymmetric | src/blocking_collider_rules.hpp:143-149 | the distance between the centres is the same for both orders of the pair |
| CollisionRules.BlockingCollide | src/blocking_collider_rules.hpp:121-172 | no result exactly when the centres coincide at `t`; otherwise deltas for the two ids that conserve momentum, defer nothing, and change the relative velocity `rhs - lhs` by twice the code's impulse of the two particles advanced to `t` |
| CollisionRules.BlockingCollideSwapped | src/blocking_collider_rules.hpp:121-169 | swapping the two arguments keeps whether there is a result and negates the change each particle receives |
| CollisionRules.AverageVelocity | src/blocking_collider_rules.hpp:76-80 | `(m_l + m_r) avg = m_l v_l + m_r v_r` in every dimension |
| CollisionRules.StickRule | src/blocking_collider_rules.hpp:72-112 | the immediate change brings both particles to the average velocity; immediate plus deferred equals `blocking_collide`'s change; the deferred part is due at the given time; both parts conserve momentum |
| CollisionRules.BlockingCollideWithDeferred | src/blocking_collider_rules.hpp:60-115 | no result exactly when the centres coincide; otherwise both particles share one velocity after the immediate change, the deferred time is `t + stick_time`, and both parts conserve momentum |
| CollisionRules.DeferredSplitsImpulse | src/blocking_collider_rules.hpp:109-112 | the two rules fail on the same inputs, and per particle immediate plus deferred equals `blocking_collide`'s `dv` |
| CollisionRules.HeadOnImpulse | src/blocking_collider_rules.hpp:143-169 | on the head-on pair at contact the code's impulse gives `lhs` +2 and `rhs` -2 |
| Volume.Insert | src/volume_model.hpp:136-139 | the map gains exactly the listed ids; a later particle with the same id overwrites an earlier one; other entries are kept |
| Volume.Init | src/volume_model.hpp:126-140 | the particles are stored by id and every id is reported as changed, in order; nothing is removed or moving; no wake-up is scheduled |
| Volume.InitInv | src/volume_model.hpp:126-140 | a volume built from well-formed particles satisfies the state invariant |
| Volume.Output | src/volume_model.hpp:142-157 | one leaving message per pending move; exactly one announcement, carrying id, updates, removals and particles, when a move or an update is pending, else none |
| Volume.TimeAdvance | src/volume_model.hpp:224-230 | never negative; 0 while something is pending; infinite exactly when nothing is pending and no wake-up is scheduled; otherwise it reaches the scheduled wake-up, or is 0 when that wake-up is already in the past |
| Volume.BoxOfIsGeometry | src/volume_model.hpp:174-176 | the scan's exit time and destination are `move_out_time` and `move_out_destination` of the volume's box |
| Volume.FlushedIsFlush | src/volume_model.hpp:178-180 | a flushed particle moves with its old velocity until the deferred time and with the corrected one after it; it ends at the global time with nothing pending |
| Volume.LeavingIdsMembers | src/volume_model.hpp:174-177 | the reference list of leaving ids holds exactly the keys whose particle's exit time has come |
| Volume.FlushedIdsMembers | src/volume_model.hpp:178-180 | the reference list of flushed ids holds exactly the staying keys whose deferred time has come |
| Volume.EarliestWakeIsLeast | src/volume_model.hpp:181-183 | the reference wake-up is the least `min(exit, deferred)` of an untouched particle, or infinity |
| Volume.VisitParticles | src/volume_model.hpp:169-183 | one step of the loop settles the particle it visits and touches no other entry |
| Volume.ScanKeys | src/volume_model.hpp:169-184 | the loop keeps the key set |
| Volume.ScanUnvisited | src/volume_model.hpp:169-184 | the loop has not touched the particles it has not yet visited |
| Volume.ScanNextUnvisited | src/volume_model.hpp:169-184 | the next particle visited is still as it was |
| Volume.ScanSettles | src/volume_model.hpp:169-184 | each visited particle is left settled (flushed if due, else unchanged) |
| Volume.ScanParticles | src/volume_model.hpp:169-184 | all visited particles are left settled and the key set is kept |
| Volume.ScanRemovals | src/volume_model.hpp:175-177 | the loop's removals are exactly the leaving ids, in key order |
| Volume.ScanMoves | src/volume_model.hpp:175-177 | one move per removal, carrying the removed particle as it was and its destination |
| Volume.ScanUpdates | src/volume_model.hpp:178-180 | the loop's updates are exactly the flushed ids |
| Volume.ScanNext | src/volume_model.hpp:181-183 | the loop's next wake-up is the reference wake-up |
| Volume.KeysAscending | src/volume_model.hpp:169 | the iteration order lists exactly the resident ids, ascending |
| Volume.RemoveAll | src/volume_model.hpp:186-188 | extracting the listed ids leaves exactly the other entries, unchanged |
| Volume.Internal | src/volume_model.hpp:159-161 | id and box are kept; the global time becomes the old one plus `time_advance()`, which is the scheduled wake-up when it lies ahead; it never decreases and stays put while output is pending |
| Volume.ScanResident | src/volume_model.hpp:169-188 | after the loop and the removals a particle is resident exactly when it does not leave, and is then settled |
| Volume.InternalParticle | src/volume_model.hpp:169-188 | one particle of the internal transition: it stays, settled, exactly when it does not leave |
| Volume.InternalParticles | src/volume_model.hpp:169-188 | the new map is the old one minus the leaving particles, each remaining particle flushed if it was due and untouched otherwise |
| Volume.InternalRemovals | src/volume_model.hpp:174-188 | removals are exactly the leaving ids, ascending; one move per removal, in the same order, carrying that particle as it was |
| Volume.LeavingIdsAscending | src/volume_model.hpp:169-177 | leaving ids picked in key order are ascending |
| Volume.InternalUpdates | src/volume_model.hpp:178-180 | updates are exactly the particles that stay and whose deferred change was due |
| Volume.InternalNext | src/volume_model.hpp:167-183 | the next wake-up is the least `min(exit, deferred)` over the untouched particles, or infinity when there are none |
| Volume.InternalInv | src/volume_model.hpp:159-189 | the internal transition keeps the state invariant |
| Volume.InternalMakesProgress | src/volume_model.hpp:175-183 | the next wake-up is later than the new global time, so the following time advance is positive once nothing is pending |
| Volume.InternalAnnouncement | src/volume_model.hpp:146-188 | after an internal transition with pending work: one announcement whose removed ids match the leaving messages in order, none of them in the snapshot, and every changed id in it |
| Volume.InternalReportable | src/volume_model.hpp:159-189 | after an internal transition every pending update names a resident particle, every leaving message lines up with the removed id at its position, and no removed id is still resident |
| Volume.OutputAnnouncement | src/volume_model.hpp:146-153 | what the announcement carries over from the pending lists |
| Volume.AddressedMembers | src/volume_model.hpp:194-198 | the admitted particles are exactly those of messages addressed to this volume |
| Volume.AddressedNone | src/volume_model.hpp:194-198 | no message addressed to this volume: nothing admitted |
| Volume.Enter | src/volume_model.hpp:194-199 | admitted particles are stored under their ids and appended to the updates; nothing else changes |
| Volume.EnterInv | src/volume_model.hpp:194-199 | admitting well-formed particles keeps the invariant |
| Volume.ApplyToMoves | src/volume_model.hpp:208-212 | moves keep their count and destinations |
| Volume.DeliverOne | src/volume_model.hpp:201-215 | a delta for another volume changes nothing; one for a resident particle applies `apply_delta` to exactly that particle and appends its id to the updates; otherwise exactly the leaving messages carrying that id get the delta; the invariant, resident ids, removals, times and box are kept |
| Volume.Deliver | src/volume_model.hpp:201-215 | a list of deltas keeps the invariant, resident ids, removals, times and box, and only appends to the updates |
| Volume.DeliverParticle | src/volume_model.hpp:201-206 | a resident particle stays resident and ends as itself with exactly the deltas addressed to it applied in order |
| Volume.DeliverUpdates | src/volume_model.hpp:201-206 | the deltas append one update per delta addressed to a resident particle, in order |
| Volume.DeliverOneMove | src/volume_model.hpp:207-212 | one delta changes only the leaving message whose particle has its id and is no longer resident, by applying the delta to it; the list keeps its length |
| Volume.DeliverMove | src/volume_model.hpp:207-212 | a leaving message keeps its particle when a resident particle has that id, and otherwise carries it with every delta addressed to that id applied in order |
| Volume.External | src/volume_model.hpp:191-216 | the invariant is kept; the global time advances by `dt`; a particle is resident afterwards exactly when it was before or entered; the old updates, then the ids of the entering particles, start the new updates; the wake-up, removals and box are unchanged |
| Volume.ExternalEffect | src/volume_model.hpp:191-216 | every old or entering particle is resident afterwards, with the deltas addressed to it applied in order; the updates are the old ones, the entering ids, and one id per delta to a resident particle |
| Volume.ExternalAdmits | src/volume_model.hpp:194-199 | a particle sent to this volume is resident afterwards and reported as changed |
| Volume.DeliverMisaddressed | src/volume_model.hpp:201-202 | deltas addressed elsewhere change nothing |
| Volume.ExternalMisaddressed | src/volume_model.hpp:191-216 | messages all addressed elsewhere only advance the global time |
| Volume.DeliverCommutes | src/volume_model.hpp:201-215 | two deltas in either order give the same particles, the same moves, and the same updates as a multiset |
| Volume.DeltaFollowsLeaver | src/volume_model.hpp:207-212 | a delta for a particle that has just left is applied to it inside its leaving message |
| Volume.LeaverNotResident | src/volume_model.hpp:174-188 | every particle in a leaving message is no longer resident |
| Volume.Confluence | src/volume_model.hpp:218-221 | the invariant is kept; the time is the internal transition's; the removals are those of the internal transition; the residents are those left by the internal transition plus the particles addressed here; and the internal transition's updates followed by the admitted ids are a prefix of the updates |
| Volume.ConfluenceParticle | src/volume_model.hpp:218-221 | every particle left by the internal transition or admitted after it is resident, with the deltas addressed to it applied in order |
| Volume.ConfluenceUpdates | src/volume_model.hpp:218-221 | the updates are the internal transition's, then the admitted ids, then one id per delta applied to a resident particle |
| Volume.ConfluenceWithoutMessages | src/volume_model.hpp:218-221 | with no messages the confluence transition is the internal one |
| Collider.Init | src/blocking_collider_model.hpp:32-44 | time 0, nothing pending, no volumes, next internal time 0 |
| Collider.PhysicsOfIsRules | src/blocking_collider_model.hpp:90-140 | on well-formed particles the collider's time and collide functions are `blocking_collide_time` and `blocking_collide` |
| Collider.NearReflexive | src/blocking_collider_model.hpp:129-133 | a volume is scanned with itself |
| Collider.NearSymmetric | src/blocking_collider_model.hpp:129-133 | nearness is symmetric |
| Collider.NearIsChebyshevOne | src/blocking_collider_model.hpp:129-133 | two volumes are near exactly when every coordinate differs by at most 1 |
| Collider.NearExamples | src/blocking_collider_model.hpp:129-133 | a diagonal neighbour is near; a volume two steps away is not |
| Collider.Fresh | src/blocking_collider_model.hpp:111-112 | a new volume gets the snapshot, no particles (`(size_t)(-1)`), a zero id and time infinity |
| Collider.Register | src/blocking_collider_model.hpp:111-115 | a new volume gets a fresh entry; a known one has its snapshot replaced; no other entry changes |
| Collider.RegisterAllKeys | src/blocking_collider_model.hpp:108-116 | the known volumes become the old ones plus the announcing ones |
| Collider.RegisterAllKeeps | src/blocking_collider_model.hpp:108-116 | volumes that did not announce keep their entry; known volumes keep their candidate |
| Collider.RegisterAllFresh | src/blocking_collider_model.hpp:111-112 | a newly seen volume starts with no candidate |
| Collider.RegisterAllSnapshot | src/blocking_collider_model.hpp:113-115 | each announcing volume holds the snapshot of its last announcement |
| Collider.DirtyIds | src/blocking_collider_model.hpp:117-120 | the dirty list holds exactly the announcing ids, as many entries as distinct ids (so each exactly once), in strictly ascending order |
| Collider.Members | src/blocking_collider_model.hpp:136-138 | a snapshot's particles in ascending id order |
| Collider.MembersComplete | src/blocking_collider_model.hpp:136-138 | every particle of a snapshot is visited |
| Collider.Consider | src/blocking_collider_model.hpp:140-162 | a pair step only lowers candidate times, to finite times no earlier than the global time; afterwards the pair is accounted for; it changes something exactly when the time is finite, not before now, and strictly earlier than the left candidate (with `lp.id < rp.id`) or than the right one; and it writes `(lp.id, rp.id, rk, tt)` into the left volume only when `lp.id < rp.id`, otherwise `(rp.id, lp.id, lk, tt)` into the right one, also when `lp.id < rp.id` but the left candidate is not beaten |
| Collider.ScanRightLowers | src/blocking_collider_model.hpp:138-164 | the same for one particle against a volume |
| Collider.ScanLeftLowers | src/blocking_collider_model.hpp:136-165 | the same for two volumes |
| Collider.ScanNearLowers | src/blocking_collider_model.hpp:126-167 | the same for one changed volume against all volumes |
| Collider.CoveredPersists | src/blocking_collider_model.hpp:141-162 | a pair accounted for stays accounted for when candidate times are lowered |
| Collider.ConsiderRecords | src/blocking_collider_model.hpp:138-162 | for particles of the snapshots of two near volumes, every entry a pair step changes names the other volume and particles of the two snapshots with the written ids, at their collision time |
| Collider.ScanRightRecords | src/blocking_collider_model.hpp:138-163 | the same for one particle against a list of particles of the right snapshot |
| Collider.ScanLeftRecords | src/blocking_collider_model.hpp:136-164 | the same for two lists of particles of the two snapshots |
| Collider.ScanNearRecords | src/blocking_collider_model.hpp:126-167 | the same for the loop over all volumes, which scans only near ones |
| Collider.RecordedTransitive | src/blocking_collider_model.hpp:126-167 | successive scans that keep the snapshots keep every changed entry a recorded collision |
| Collider.ScanRightCovers | src/blocking_collider_model.hpp:138-164 | one particle against a volume: every pair is accounted for |
| Collider.ScanLeftCovers | src/blocking_collider_model.hpp:136-165 | two volumes: every pair is accounted for |
| Collider.CoversVolumePersists | src/blocking_collider_model.hpp:141-162 | a scanned volume stays accounted for when times are lowered |
| Collider.ScanPairCovers | src/blocking_collider_model.hpp:133-165 | the scan of two near volumes lowers times and accounts for all their pairs |
| Collider.CoversNearSnoc | src/blocking_collider_model.hpp:126-167 | scanning one more volume keeps the earlier ones accounted for |
| Collider.ScanNearCovers | src/blocking_collider_model.hpp:126-167 | after the loop over all volumes, every near volume's pairs are accounted for |
| Collider.RescanOne | src/blocking_collider_model.hpp:122-167 | rescanning a volume drops its candidate and only lowers the others, to times no earlier than now; every candidate it sets names a right volume near the left one and particles of the two snapshots with those ids, at their collision time; and it accounts for every pair between the volume and every volume near it |
| Collider.RulesOfSound | src/blocking_collider_model.hpp:122-167 | the collider's own rescan has the properties `Sound` requires, whatever the collision rules: it lowers times, every candidate it sets is a collision of particles of two near volumes' snapshots, and it accounts for every near pair |
| Collider.RescanEffect | src/blocking_collider_model.hpp:122-168 | rescanning the dirty list acts on exactly the dirty volumes |
| Collider.Lowest | src/blocking_collider_model.hpp:172-179 | the strict-`<` fold is the minimum of the old value and all candidate times, attained by one of them |
| Collider.External | src/blocking_collider_model.hpp:105-106 | the time advances by `dt`; the queued deltas are unchanged |
| Collider.RegisteredRescan | src/blocking_collider_model.hpp:117-168 | after recording, the rescan acts on exactly the announcing volumes |
| Collider.AnnounceCandidates | src/blocking_collider_model.hpp:108-168 | known volumes become old plus announcing; each announcing volume has no candidate or one no earlier than now; other candidates are kept or lowered; every candidate set is a collision of particles of two near volumes' snapshots |
| Collider.ExternalCandidates | src/blocking_collider_model.hpp:105-168 | the same for the external transition at the advanced time |
| Collider.AnnounceNext | src/blocking_collider_model.hpp:172-179 | the next internal time becomes the minimum of its old value and every candidate time; it is never raised |
| Collider.ExternalNext | src/blocking_collider_model.hpp:172-179 | the same for the external transition |
| Collider.AnnounceCoversAnnouncer | src/blocking_collider_model.hpp:108-168 | after one announcement every future pair between the announcing volume and a near volume is accounted for |
| Collider.ExternalCoversAnnouncer | src/blocking_collider_model.hpp:105-168 | the same for the external transition |
| Collider.Resolution | src/blocking_collider_model.hpp:90-96 | two deltas, stamped with the left and right volume ids |
| Collider.FireOne | src/blocking_collider_model.hpp:86-99 | one volume: fails exactly when its candidate is due and cannot be resolved; a volume not due leaves everything unchanged; a due one has its candidate reset and its resolution queued after the earlier deltas |
| Collider.FireOneEffect | src/blocking_collider_model.hpp:86-99 | one volume: succeeds exactly when its candidate is not due or resolves; it then resets that candidate and queues its two deltas |
| Collider.FireAllEffect | src/blocking_collider_model.hpp:82-101 | the loop succeeds exactly when every due candidate resolves; it then resets exactly the due candidates and queues their deltas in order |
| Collider.FiredIdsMembers | src/blocking_collider_model.hpp:86 | the reference list of fired ids holds exactly the due volumes |
| Collider.FiredDeltasPairs | src/blocking_collider_model.hpp:92-96 | the queued deltas come in pairs, one pair per due volume, in order |
| Collider.TimeAdvance | src/blocking_collider_model.hpp:189-195 | never negative; 0 while deltas are pending; infinite exactly when none are pending and the next internal time is infinite; otherwise `max(next - now, 0)`: it reaches the next internal time when that lies ahead, and is 0 when it is already past |
| Collider.WakeUpIsNextInternalTime | src/blocking_collider_model.hpp:76-86 | with no deltas pending and a finite next internal time, the internal transition fires at that time if it lies ahead, else now, and every volume whose candidate is no later than it fires |
| Collider.Internal | src/blocking_collider_model.hpp:75-80 | on success the time has advanced by `time_advance()` and the next internal time is infinity |
| Collider.InternalSucceeds | src/blocking_collider_model.hpp:82-101 | the transition fails exactly when a due candidate's lookups throw or its collision has no result |
| Collider.InternalOutput | src/blocking_collider_model.hpp:64-96 | the output after an internal transition is the resolutions of the due volumes, in ascending volume id order |
| Collider.InternalCandidates | src/blocking_collider_model.hpp:86-98 | exactly the due candidates are reset to infinity, all others are unchanged, and every remaining candidate is later than now |
| Collider.ResolutionConservesMomentum | src/blocking_collider_model.hpp:90-96 | with the rules of `blocking_collider_rules.hpp`, each pair of deltas is addressed to the candidate's two particles, defers nothing (zero deferred change, infinite deferred time), conserves momentum, and changes the relative velocity by twice the code's impulse of the two particles at the current time |
| Collider.Confluence | src/blocking_collider_model.hpp:183-186 | succeeds exactly when the internal transition does; then the time is the firing time and the queued deltas are the internal transition's |
| Collider.ConfluenceAnnounces | src/blocking_collider_model.hpp:183-186 | with a lowering search, the known volumes become the old ones plus the announcing ones, and the candidates are those left by the internal transition with the announcements recorded and exactly the announcing volumes rescanned at the firing time |
| Collider.ConfluenceNext | src/blocking_collider_model.hpp:183-186 | the next internal time is at most every candidate time and is either infinity or one of them |
| Collider.ConfluenceWithoutAnnouncements | src/blocking_collider_model.hpp:183-186 | with no announcements the confluence transition is the internal one, except that the next internal time is lowered to the earliest remaining candidate, which is later than now |

## Left out

- Cadmium ports, message bags, the coupled-model wiring and the simulation runner are not modelled. They are scheduler framework code. Message bags become sequences, so the order of a bag is the order of the sequence.
- The `operator<<` printers and the `std::cout` traces are not modelled. They only log.
- The Python log and plotting tools are not modelled. They post-process output.
- IEEE-754 rounding and NaN are not modelled, and `sqrt` itself is a parameter. Arithmetic is exact over `real`.
- The comparison operators of `state_type` and `volume_model` are not modelled. Nothing in the core uses them.
- The announcement's pointer to the live particle map is modelled as a copy taken when the message is sent. Pointer aliasing and lifetime are outside the model.
- Unused computations in the two impulse rules are not modelled: `unit_relative_velocity`, `relative_dot` and `relative_velocity_s`.
- Integer widths are not modelled: `long` volume coordinates and `size_t` ids are unbounded. The `(size_t)(-1)` sentinel is the constant `Collider.NoParticle`.
- The volume's `global_time` is uninitialised in the source. The model starts it at 0.
- Volume.Internal: requires a finite time advance. The scheduler never fires an internal transition at infinity; with an infinite advance the source's time would become infinite.
- Collider.Internal: requires a finite time advance, for the same reason.
- Volume.External: requires the state invariant and well-formed messages. The source's array types fix every vector to `DIMS` components, and deferred times are never minus infinity. `Volume.DeliverOne`, `Volume.Deliver` and `Volume.Confluence` require the same.
- Particles.ApplyDv: requires a finite deferred time. The source calls it only once that time has been reached.
- CollisionRules.BlockingCollide: requires a non-zero total mass. When the centres coincide it returns no result instead of the source's NaN deltas. `CollisionRules.BlockingCollideWithDeferred` does the same.
- Collider.FireOne: a lookup for which `map::at` throws ends the transition with a `Failure`. So does a collision with no result. The C++ argument-evaluation order, which decides which of two failing lookups throws first, is not modelled.
- Collider.AnnounceCandidates: the transition lemmas over `Rules` assume `Sound(rules)` or `SearchLowers(rules)`. `Collider.RulesOfSound` proves these hold for the collider's own rescan, `RulesOf(ph)`.
