/** The message a volume sends to the blocking collider after every change. */
module Announcements {
  import opened Particles

  /**
   `particle_announcement_message`: the volume's id, the ids of particles
   that changed or left, and the volume's particles. The source passes a
   pointer to the live map; here it is a copy taken when the message is
   sent.
   */
  datatype Announcement = Announcement(
    volumeId: seq<int>,
    changed: seq<nat>,
    removed: seq<nat>,
    snapshot: map<nat, Particle>)
}
