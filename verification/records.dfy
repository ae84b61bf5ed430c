/** Values shared by the search, the store and the selector. Unity's
    `Vector2`/`Vector3` floats become `real`. A target (a scene `Transform`)
    is identified by its index in the controller's `targetPoints`. */
module Records {
  import opened ForceRanges

  type TargetId = nat

  datatype Vec2 = Vec2(x: real, y: real)

  datatype Vec3 = Vec3(x: real, y: real, z: real)

  /** A target zone as the store sees it: the scene object's name and position. */
  datatype Target = Target(name: string, position: Vec3)

  /** One successful launch: where the ball was spawned and the impulse it got. */
  datatype Launch = Launch(position: Vec2, force: Vec2)

  datatype Stats = Stats(successCount: nat, totalAttempts: nat)

  /** The controller's three dictionaries `launchParamsCache`, `successRates`
      and `targetForceRanges`, keyed by target. */
  datatype Cache = Cache(
    launches: map<TargetId, seq<Launch>>,
    rates: map<TargetId, Stats>,
    ranges: map<TargetId, seq<Range>>)

  const EmptyCache: Cache := Cache(map[], map[], map[])
}
