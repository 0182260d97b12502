/** The two editors of the point-system form (components/PointSystemConfig.tsx).
    Each builds a new PointSystem from the current one and hands it to the
    parent; nothing is mutated, so both are functions here. */
module PointConfig {
  import opened Types

  /** Set the points of one rank, keeping every other entry and the kill rate. */
  function UpdatePositionPoint(config: PointSystem, rank: int, val: int): (r: PointSystem)
    ensures rank in r.positionPoints && r.positionPoints[rank] == val
    ensures r.positionPoints.Keys == config.positionPoints.Keys + {rank}
    ensures forall k :: k in config.positionPoints && k != rank ==>
              r.positionPoints[k] == config.positionPoints[k]
    ensures r.pointsPerKill == config.pointsPerKill
  {
    config.(positionPoints := config.positionPoints[rank := val])
  }

  /** Set the points per kill, keeping the rank table. */
  function UpdateKillPoint(config: PointSystem, val: int): (r: PointSystem)
    ensures r.pointsPerKill == val
    ensures r.positionPoints == config.positionPoints
  {
    config.(pointsPerKill := val)
  }

  /** The form only offers ranks that are already keys of the table, so an edit
      made through it never adds or removes a rank. */
  lemma UpdateThroughFormKeepsKeys(config: PointSystem, rank: int, val: int)
    requires rank in config.positionPoints
    ensures UpdatePositionPoint(config, rank, val).positionPoints.Keys == config.positionPoints.Keys
  {
  }

  /** Editing a rank to the same value twice is the same as doing it once. */
  lemma UpdatePositionPointIdempotent(config: PointSystem, rank: int, val: int)
    ensures UpdatePositionPoint(UpdatePositionPoint(config, rank, val), rank, val)
         == UpdatePositionPoint(config, rank, val)
  {
    var once := UpdatePositionPoint(config, rank, val);
    var twice := UpdatePositionPoint(once, rank, val);
    assert twice.positionPoints == once.positionPoints;
  }

  lemma UpdateKillPointIdempotent(config: PointSystem, val: int)
    ensures UpdateKillPoint(UpdateKillPoint(config, val), val) == UpdateKillPoint(config, val)
  {
  }

  /** Edits of two different ranks commute. */
  lemma UpdatePositionPointsCommute(config: PointSystem, r1: int, v1: int, r2: int, v2: int)
    requires r1 != r2
    ensures UpdatePositionPoint(UpdatePositionPoint(config, r1, v1), r2, v2)
         == UpdatePositionPoint(UpdatePositionPoint(config, r2, v2), r1, v1)
  {
    var a := UpdatePositionPoint(UpdatePositionPoint(config, r1, v1), r2, v2);
    var b := UpdatePositionPoint(UpdatePositionPoint(config, r2, v2), r1, v1);
    assert a.positionPoints == b.positionPoints;
  }

  /** The kill-rate edit and a rank edit touch different fields, so they commute. */
  lemma UpdateKillAndPositionCommute(config: PointSystem, rank: int, val: int, perKill: int)
    ensures UpdateKillPoint(UpdatePositionPoint(config, rank, val), perKill)
         == UpdatePositionPoint(UpdateKillPoint(config, perKill), rank, val)
  {
  }
}
