/** Steps 4 to 6 of the leaderboard engine (App.tsx): turn every entry of
    `slotPointsMap` into a scored row, sort the rows by total points and then
    kills, both descending, and number them from 1. */
module Ranking {
  import opened Types
  import opened Decimal
  import Obj = IntKeyedObject

  /** The label of a slot, `Slot ${slotNo}`. */
  function TeamName(slotNo: int): (name: string)
    ensures |name| > 5 && name[..5] == "Slot " && name[5..] == IntToString(slotNo)
  {
    "Slot " + IntToString(slotNo)
  }

  /** The slot number can be read back from the label, so different slots
      get different labels. */
  lemma TeamNameRoundTrip(slotNo: int)
    ensures ParseInt(TeamName(slotNo)[5..]) == slotNo
  {
    IntToStringRoundTrip(slotNo);
  }

  /** One row before ranking (its `rank` is the placeholder 0). */
  function ScoreRow(slotNo: int, stats: SlotStats, ps: PointSystem): (row: FinalLeaderboardRow)
    ensures row.rank == 0 && row.slotNo == slotNo && row.teamName == TeamName(slotNo)
    ensures row.totalKills == stats.kills
    ensures row.killPoints == stats.kills * ps.pointsPerKill
    ensures row.positionPoints == PositionPointsFor(ps, stats.rank)
    ensures row.totalPoints == row.killPoints + row.positionPoints
    ensures row.win <==> stats.rank == 1
  {
    var kPts := stats.kills * ps.pointsPerKill;
    var pPts := PositionPointsFor(ps, stats.rank);
    FinalLeaderboardRow(0, slotNo, TeamName(slotNo), stats.rank == 1, kPts, pPts, kPts + pPts, stats.kills)
  }

  /** `Object.entries(slotPointsMap).map(...)`: one scored row per entry, in
      entry order. */
  function ScoreEntries(entries: Obj.Entries<SlotStats>, ps: PointSystem): (rows: seq<FinalLeaderboardRow>)
    ensures |rows| == |entries|
    ensures forall i :: 0 <= i < |rows| ==> rows[i] == ScoreRow(entries[i].0, entries[i].1, ps)
  {
    if entries == [] then []
    else [ScoreRow(entries[0].0, entries[0].1, ps)] + ScoreEntries(entries[1..], ps)
  }

  /** The sort comparator `b.totalPoints - a.totalPoints || b.totalKills - a.totalKills`:
      negative when a goes first, zero when the two are tied. */
  function Compare(a: FinalLeaderboardRow, b: FinalLeaderboardRow): int {
    var byPoints := b.totalPoints - a.totalPoints;
    if byPoints != 0 then byPoints else b.totalKills - a.totalKills
  }

  /** a strictly outranks b: more points, or as many points and more kills. */
  predicate Outranks(a: FinalLeaderboardRow, b: FinalLeaderboardRow) {
    a.totalPoints > b.totalPoints || (a.totalPoints == b.totalPoints && a.totalKills > b.totalKills)
  }

  lemma CompareMeaning(a: FinalLeaderboardRow, b: FinalLeaderboardRow)
    ensures Compare(a, b) < 0 <==> Outranks(a, b)
    ensures Compare(a, b) > 0 <==> Outranks(b, a)
    ensures Compare(a, b) == 0 <==> a.totalPoints == b.totalPoints && a.totalKills == b.totalKills
  {
  }

  /** Raising the points per kill never narrows the lead in total points of
      a slot with more kills over a slot with fewer. */
  lemma KillRateWidensLead(ka: int, sa: SlotStats, kb: int, sb: SlotStats, ps: PointSystem, k2: int)
    requires sa.kills > sb.kills && k2 >= ps.pointsPerKill
    ensures var ps2 := ps.(pointsPerKill := k2);
      ScoreRow(ka, sa, ps2).totalPoints - ScoreRow(kb, sb, ps2).totalPoints
        >= ScoreRow(ka, sa, ps).totalPoints - ScoreRow(kb, sb, ps).totalPoints
  {
    var d := sa.kills - sb.kills;
    assert sa.kills * k2 - sb.kills * k2 == d * k2;
    assert sa.kills * ps.pointsPerKill - sb.kills * ps.pointsPerKill == d * ps.pointsPerKill;
  }

  /** Changing the points per kill never reorders two slots with equal kills:
      the comparator gives the same answer under either rate. */
  lemma KillRateKeepsEqualKillsOrder(ka: int, sa: SlotStats, kb: int, sb: SlotStats, ps: PointSystem, k2: int)
    requires sa.kills == sb.kills
    ensures var ps2 := ps.(pointsPerKill := k2);
      Compare(ScoreRow(ka, sa, ps2), ScoreRow(kb, sb, ps2)) == Compare(ScoreRow(ka, sa, ps), ScoreRow(kb, sb, ps))
  {
  }

  /** No row is outranked by a row after it. */
  predicate SortedByScore(rows: seq<FinalLeaderboardRow>) {
    forall i, j :: 0 <= i < j < |rows| ==> !Outranks(rows[j], rows[i])
  }

  /** The full order of the final list: score first, then ascending slot number. */
  predicate Precedes(a: FinalLeaderboardRow, b: FinalLeaderboardRow) {
    Outranks(a, b) ||
    (a.totalPoints == b.totalPoints && a.totalKills == b.totalKills && a.slotNo < b.slotNo)
  }

  predicate StrictlyOrdered(rows: seq<FinalLeaderboardRow>) {
    forall i, j :: 0 <= i < j < |rows| ==> Precedes(rows[i], rows[j])
  }

  predicate SlotsAscending(rows: seq<FinalLeaderboardRow>) {
    forall i, j :: 0 <= i < j < |rows| ==> rows[i].slotNo < rows[j].slotNo
  }

  /** One step of a stable insertion sort: x, which came before every row of
      the sorted list, goes after the rows that outrank it and before all the
      others. */
  function Insert(x: FinalLeaderboardRow, sorted: seq<FinalLeaderboardRow>): (r: seq<FinalLeaderboardRow>)
    ensures multiset(r) == multiset(sorted) + multiset{x}
  {
    if sorted == [] then [x]
    else if Compare(sorted[0], x) < 0 then
      assert sorted == [sorted[0]] + sorted[1..];
      [sorted[0]] + Insert(x, sorted[1..])
    else
      [x] + sorted
  }

  lemma InsertMembers(x: FinalLeaderboardRow, sorted: seq<FinalLeaderboardRow>)
    ensures forall y :: y in Insert(x, sorted) ==> y == x || y in sorted
  {
    forall y | y in Insert(x, sorted) ensures y == x || y in sorted {
      assert y in multiset(Insert(x, sorted));
    }
  }

  lemma {:induction false} InsertSorted(x: FinalLeaderboardRow, sorted: seq<FinalLeaderboardRow>)
    requires SortedByScore(sorted)
    ensures SortedByScore(Insert(x, sorted))
  {
    if sorted != [] {
      var head := sorted[0];
      if Compare(head, x) < 0 {
        var rest := Insert(x, sorted[1..]);
        InsertSorted(x, sorted[1..]);
        InsertMembers(x, sorted[1..]);
        assert forall y :: y in sorted[1..] ==> !Outranks(y, head) by {
          forall y | y in sorted[1..] ensures !Outranks(y, head) {
            var j :| 0 <= j < |sorted[1..]| && sorted[1..][j] == y;
            assert sorted[j + 1] == y;
          }
        }
        var r := [head] + rest;
        assert r == Insert(x, sorted);
        forall i, j | 0 <= i < j < |r| ensures !Outranks(r[j], r[i]) {
          if i == 0 {
            assert r[j] in rest;
          } else {
            assert r[i] == rest[i - 1] && r[j] == rest[j - 1];
          }
        }
      }
    }
  }

  lemma {:induction false} InsertStrict(x: FinalLeaderboardRow, sorted: seq<FinalLeaderboardRow>)
    requires StrictlyOrdered(sorted)
    requires forall y :: y in sorted ==> x.slotNo < y.slotNo
    ensures StrictlyOrdered(Insert(x, sorted))
  {
    if sorted != [] {
      var head := sorted[0];
      if Compare(head, x) < 0 {
        var rest := Insert(x, sorted[1..]);
        assert forall y :: y in sorted[1..] ==> y in sorted;
        InsertStrict(x, sorted[1..]);
        InsertMembers(x, sorted[1..]);
        assert forall y :: y in sorted[1..] ==> Precedes(head, y) by {
          forall y | y in sorted[1..] ensures Precedes(head, y) {
            var j :| 0 <= j < |sorted[1..]| && sorted[1..][j] == y;
            assert sorted[j + 1] == y;
          }
        }
        var r := [head] + rest;
        assert r == Insert(x, sorted);
        forall i, j | 0 <= i < j < |r| ensures Precedes(r[i], r[j]) {
          if i == 0 {
            assert r[j] in rest;
          } else {
            assert r[i] == rest[i - 1] && r[j] == rest[j - 1];
          }
        }
      } else {
        assert Precedes(x, head);
        PrependStrict(x, sorted);
      }
    }
  }

  /** A row that precedes the head of a strictly ordered list can go in front. */
  lemma PrependStrict(x: FinalLeaderboardRow, sorted: seq<FinalLeaderboardRow>)
    requires StrictlyOrdered(sorted) && sorted != [] && Precedes(x, sorted[0])
    ensures StrictlyOrdered([x] + sorted)
  {
    var r := [x] + sorted;
    forall i, j | 0 <= i < j < |r| ensures Precedes(r[i], r[j]) {
      if i == 0 && j > 1 {
        assert r[j] == sorted[j - 1];
        assert Precedes(sorted[0], r[j]);
      } else if i > 0 {
        assert r[i] == sorted[i - 1] && r[j] == sorted[j - 1];
      }
    }
  }

  /** `Array.prototype.sort` with the comparator above: the result is the
      input reordered so that no row is outranked by a later one. */
  function SortRows(rows: seq<FinalLeaderboardRow>): (r: seq<FinalLeaderboardRow>)
    ensures multiset(r) == multiset(rows)
    ensures SortedByScore(r)
  {
    if rows == [] then []
    else
      assert rows == [rows[0]] + rows[1..];
      InsertSorted(rows[0], SortRows(rows[1..]));
      Insert(rows[0], SortRows(rows[1..]))
  }

  /** When the input lists the slots in strictly ascending number, as
      `Object.entries` does, the sorted rows are ordered by points, then
      kills, then ascending slot number, so the order is fully determined. */
  lemma {:induction false} SortRowsTieBreak(rows: seq<FinalLeaderboardRow>)
    requires SlotsAscending(rows)
    ensures StrictlyOrdered(SortRows(rows))
  {
    if rows != [] {
      var rest := SortRows(rows[1..]);
      assert SlotsAscending(rows[1..]);
      SortRowsTieBreak(rows[1..]);
      forall y | y in rest ensures rows[0].slotNo < y.slotNo {
        assert y in multiset(rows[1..]);
        var j :| 0 <= j < |rows[1..]| && rows[1..][j] == y;
        assert rows[j + 1] == y;
      }
      InsertStrict(rows[0], rest);
    }
  }

  /** `.map((row, idx) => ({ ...row, rank: idx + 1 }))` from position `from` on. */
  function RankFrom(rows: seq<FinalLeaderboardRow>, from: int): (r: seq<FinalLeaderboardRow>)
    ensures |r| == |rows|
    ensures forall i :: 0 <= i < |r| ==> r[i] == rows[i].(rank := from + i + 1)
  {
    if rows == [] then []
    else [rows[0].(rank := from + 1)] + RankFrom(rows[1..], from + 1)
  }

  /** Number the sorted rows 1, 2, 3, ... */
  function AssignRanks(rows: seq<FinalLeaderboardRow>): (r: seq<FinalLeaderboardRow>)
    ensures |r| == |rows|
    ensures forall i :: 0 <= i < |r| ==> r[i] == rows[i].(rank := i + 1)
  {
    RankFrom(rows, 0)
  }
}
