/** The records the leaderboard engine works on (types.ts). Every number of the
    source is a JavaScript `number`; here it is an unbounded `int`. */
module Types {

  datatype Option<+T> = None | Some(value: T)

  /** One lobby slot: its number and the raw player names seen in it. */
  datatype SlotData = SlotData(slotNo: int, players: seq<string>)

  /** One line of the end-of-match result screen. */
  datatype MatchResult = MatchResult(rank: int, playerName: string, kills: int)

  /** The scoring rules: points per kill and a table from match rank to points. */
  datatype PointSystem = PointSystem(pointsPerKill: int, positionPoints: map<int, int>)

  /** `positionPoints[rank] || 0`: the points of a rank, 0 when the table has
      no entry for it (a stored 0, which `||` also replaces, is 0 anyway). */
  function PositionPointsFor(ps: PointSystem, rank: int): (p: int)
    ensures rank in ps.positionPoints ==> p == ps.positionPoints[rank]
    ensures rank !in ps.positionPoints ==> p == 0
  {
    if rank in ps.positionPoints then ps.positionPoints[rank] else 0
  }

  /** What the aggregation step stores per slot: kills and best matched rank. */
  datatype SlotStats = SlotStats(kills: int, rank: int)

  /** One row of the final leaderboard. */
  datatype FinalLeaderboardRow = FinalLeaderboardRow(
    rank: int,
    slotNo: int,
    teamName: string,
    win: bool,
    killPoints: int,
    positionPoints: int,
    totalPoints: int,
    totalKills: int)
}
