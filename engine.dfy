/** The leaderboard engine of App.tsx as one computation: from the roster
    (`slots`), the result lines (`results`) and the point system to the ranked
    rows the page shows. */
module Engine {
  import opened Types
  import opened Aggregation
  import opened Ranking
  import Obj = IntKeyedObject

  /** What the engine computes. */
  function LeaderboardOf(slots: seq<SlotData>, results: seq<MatchResult>, ps: PointSystem)
    : seq<FinalLeaderboardRow>
  {
    if |slots| == 0 || |results| == 0 then []
    else AssignRanks(SortRows(ScoreEntries(AggregateSpec(slots, results), ps)))
  }

  /** The recomputation itself: an early exit on empty input, the aggregation
      loops, then score, sort and number the rows. */
  method ComputeLeaderboard(slots: seq<SlotData>, results: seq<MatchResult>, ps: PointSystem)
    returns (rows: seq<FinalLeaderboardRow>)
    ensures rows == LeaderboardOf(slots, results, ps)
  {
    if |slots| == 0 || |results| == 0 {
      return [];
    }
    var slotPointsMap := Aggregate(slots, results);
    var scored := ScoreEntries(slotPointsMap, ps);
    rows := AssignRanks(SortRows(scored));
  }

  /** Whether slot k is the last slot of the roster with its number. */
  predicate LastWithNo(slots: seq<SlotData>, k: int)
    requires 0 <= k < |slots|
  {
    forall j :: k < j < |slots| ==> slots[j].slotNo != slots[k].slotNo
  }

  /** Some row of the list is the row of slot n. */
  ghost predicate HasSlot(rows: seq<FinalLeaderboardRow>, n: int) {
    exists i :: 0 <= i < |rows| && rows[i].slotNo == n
  }

  /** The board is empty exactly when the roster or the results are. */
  lemma LeaderboardEmptyIff(slots: seq<SlotData>, results: seq<MatchResult>, ps: PointSystem)
    ensures LeaderboardOf(slots, results, ps) == [] <==> |slots| == 0 || |results| == 0
  {
    if |slots| > 0 && |results| > 0 {
      var e := AggregateSpec(slots, results);
      assert slots[0].slotNo in Obj.Keys(e);
    }
  }

  /** The scored rows list the keys of `slotPointsMap` in ascending order. */
  lemma ScoredRows(e: Obj.Entries<SlotStats>, ps: PointSystem)
    requires Obj.Ascending(e)
    ensures var u := ScoreEntries(e, ps);
      SlotsAscending(u) && (forall i :: 0 <= i < |u| ==> u[i].slotNo == e[i].0)
  {
  }

  /** After sorting, the rows still carry every key of `slotPointsMap`
      exactly once and nothing else. */
  lemma SortedRowsKeys(e: Obj.Entries<SlotStats>, ps: PointSystem)
    requires Obj.Ascending(e)
    ensures var s := SortRows(ScoreEntries(e, ps));
      && |s| == |Obj.Keys(e)|
      && (forall i :: 0 <= i < |s| ==> s[i].slotNo in Obj.Keys(e))
      && (forall n :: n in Obj.Keys(e) ==> HasSlot(s, n))
      && (forall i, j :: 0 <= i < j < |s| ==> s[i].slotNo != s[j].slotNo)
  {
    var u := ScoreEntries(e, ps);
    ScoredRows(e, ps);
    Obj.KeysCount(e);
    SortedRowsLength(u);
    SortedRowsFrom(e, ps);
    SortedRowsCover(e, ps);
    SortedRowsDistinct(u);
  }

  lemma SortedRowsLength(u: seq<FinalLeaderboardRow>)
    ensures |SortRows(u)| == |u|
  {
    assert |multiset(SortRows(u))| == |multiset(u)|;
  }

  lemma SortedRowsFrom(e: Obj.Entries<SlotStats>, ps: PointSystem)
    ensures var s := SortRows(ScoreEntries(e, ps));
      forall i :: 0 <= i < |s| ==> s[i].slotNo in Obj.Keys(e)
  {
    var u := ScoreEntries(e, ps);
    var s := SortRows(u);
    forall i | 0 <= i < |s| ensures s[i].slotNo in Obj.Keys(e) {
      assert s[i] in multiset(u);
      var a :| 0 <= a < |u| && u[a] == s[i];
      assert e[a].0 in Obj.Keys(e);
    }
  }

  lemma SortedRowsCover(e: Obj.Entries<SlotStats>, ps: PointSystem)
    ensures var s := SortRows(ScoreEntries(e, ps));
      forall n :: n in Obj.Keys(e) ==> HasSlot(s, n)
  {
    var u := ScoreEntries(e, ps);
    var s := SortRows(u);
    forall n | n in Obj.Keys(e) ensures HasSlot(s, n) {
      var a := Obj.IndexOf(e, n);
      assert u[a] in multiset(s);
      var i :| 0 <= i < |s| && s[i] == u[a];
      assert s[i].slotNo == n;
    }
  }

  lemma SortedRowsDistinct(u: seq<FinalLeaderboardRow>)
    requires SlotsAscending(u)
    ensures var s := SortRows(u);
      forall i, j :: 0 <= i < j < |s| ==> s[i].slotNo != s[j].slotNo
  {
    var s := SortRows(u);
    SortRowsTieBreak(u);
    forall i, j | 0 <= i < j < |s| ensures s[i].slotNo != s[j].slotNo {
      assert Precedes(s[i], s[j]);
      assert s[i] in multiset(u) && s[j] in multiset(u);
      var a :| 0 <= a < |u| && u[a] == s[i];
      var b :| 0 <= b < |u| && u[b] == s[j];
      if a != b {
        assert u[a].slotNo != u[b].slotNo;
      }
    }
  }

  /** One row per slot number: with a roster and results present, the board
      carries each slot number of the roster exactly once and nothing else. */
  lemma LeaderboardOneRowPerSlot(slots: seq<SlotData>, results: seq<MatchResult>, ps: PointSystem)
    requires |slots| > 0 && |results| > 0
    ensures var rows := LeaderboardOf(slots, results, ps);
      && |rows| == |SlotNos(slots)|
      && (forall i :: 0 <= i < |rows| ==> rows[i].slotNo in SlotNos(slots))
      && (forall n :: n in SlotNos(slots) ==> HasSlot(rows, n))
      && (forall i, j :: 0 <= i < j < |rows| ==> rows[i].slotNo != rows[j].slotNo)
  {
    var e := AggregateSpec(slots, results);
    var s := SortRows(ScoreEntries(e, ps));
    SortedRowsKeys(e, ps);
    LeaderboardUnfold(slots, results, ps);
    RanksKeepKeys(s, Obj.Keys(e));
  }

  lemma LeaderboardUnfold(slots: seq<SlotData>, results: seq<MatchResult>, ps: PointSystem)
    requires |slots| > 0 && |results| > 0
    ensures LeaderboardOf(slots, results, ps)
         == AssignRanks(SortRows(ScoreEntries(AggregateSpec(slots, results), ps)))
  {
  }

  /** Numbering the rows keeps the set of slot numbers they carry. */
  lemma RanksKeepKeys(s: seq<FinalLeaderboardRow>, keys: set<int>)
    requires |s| == |keys|
    requires forall i :: 0 <= i < |s| ==> s[i].slotNo in keys
    requires forall n :: n in keys ==> HasSlot(s, n)
    requires forall i, j :: 0 <= i < j < |s| ==> s[i].slotNo != s[j].slotNo
    ensures var rows := AssignRanks(s);
      && |rows| == |keys|
      && (forall i :: 0 <= i < |rows| ==> rows[i].slotNo in keys)
      && (forall n :: n in keys ==> HasSlot(rows, n))
      && (forall i, j :: 0 <= i < j < |rows| ==> rows[i].slotNo != rows[j].slotNo)
  {
    var rows := AssignRanks(s);
    forall n | n in keys ensures HasSlot(rows, n) {
      assert HasSlot(s, n);
      var i :| 0 <= i < |s| && s[i].slotNo == n;
      assert rows[i].slotNo == n;
    }
  }

  /** Each row holds the score of the last roster slot with its number and
      its 1-based place on the board. */
  lemma {:induction false} LeaderboardRowContents(slots: seq<SlotData>, results: seq<MatchResult>, ps: PointSystem,
                                                  i: int, k: int)
    requires |results| > 0
    requires 0 <= k < |slots| && LastWithNo(slots, k)
    requires 0 <= i < |LeaderboardOf(slots, results, ps)|
    requires LeaderboardOf(slots, results, ps)[i].slotNo == slots[k].slotNo
    ensures LeaderboardOf(slots, results, ps)[i]
         == ScoreRow(slots[k].slotNo, Stats(slots[k], results), ps).(rank := i + 1)
  {
    var e := AggregateSpec(slots, results);
    var u := ScoreEntries(e, ps);
    var s := SortRows(u);
    assert LeaderboardOf(slots, results, ps) == AssignRanks(s);
    assert s[i] in multiset(u);
    var a :| 0 <= a < |u| && u[a] == s[i];
    Obj.GetAt(e, a);
    AggregateLastWins(slots, results, k);
  }

  /** The board is sorted by total points, then kills, both descending; rows
      tied on both come in ascending slot number; row i carries rank i + 1. */
  lemma LeaderboardOrder(slots: seq<SlotData>, results: seq<MatchResult>, ps: PointSystem)
    ensures var rows := LeaderboardOf(slots, results, ps);
      && (forall i, j :: 0 <= i < j < |rows| ==> rows[i].totalPoints >= rows[j].totalPoints)
      && (forall i, j :: 0 <= i < j < |rows| && rows[i].totalPoints == rows[j].totalPoints ==>
            rows[i].totalKills >= rows[j].totalKills)
      && (forall i, j ::
            0 <= i < j < |rows| && rows[i].totalPoints == rows[j].totalPoints && rows[i].totalKills == rows[j].totalKills
            ==> rows[i].slotNo < rows[j].slotNo)
      && (forall i :: 0 <= i < |rows| ==> rows[i].rank == i + 1)
  {
    if |slots| > 0 && |results| > 0 {
      var e := AggregateSpec(slots, results);
      var u := ScoreEntries(e, ps);
      LeaderboardUnfold(slots, results, ps);
      ScoredRows(e, ps);
      SortRowsTieBreak(u);
      RanksKeepOrder(SortRows(u));
    }
  }

  /** Numbering the rows keeps their order. */
  lemma RanksKeepOrder(s: seq<FinalLeaderboardRow>)
    requires SortedByScore(s) && StrictlyOrdered(s)
    ensures var rows := AssignRanks(s);
      && (forall i, j :: 0 <= i < j < |rows| ==> rows[i].totalPoints >= rows[j].totalPoints)
      && (forall i, j :: 0 <= i < j < |rows| && rows[i].totalPoints == rows[j].totalPoints ==>
            rows[i].totalKills >= rows[j].totalKills)
      && (forall i, j ::
            0 <= i < j < |rows| && rows[i].totalPoints == rows[j].totalPoints && rows[i].totalKills == rows[j].totalKills
            ==> rows[i].slotNo < rows[j].slotNo)
  {
    var rows := AssignRanks(s);
    forall i, j | 0 <= i < j < |rows| ensures Precedes(rows[i], rows[j]) {
      assert Precedes(s[i], s[j]);
    }
  }

  /** The rows with their rank reset to the placeholder 0. */
  function WithoutRanks(rows: seq<FinalLeaderboardRow>): (r: seq<FinalLeaderboardRow>)
    ensures |r| == |rows|
    ensures forall i :: 0 <= i < |r| ==> r[i] == rows[i].(rank := 0)
  {
    if rows == [] then [] else [rows[0].(rank := 0)] + WithoutRanks(rows[1..])
  }

  /** The board lists the scored rows, reordered: taking the ranks off gives
      back a permutation of what `Object.entries(...).map(...)` produced. */
  lemma LeaderboardIsPermutation(slots: seq<SlotData>, results: seq<MatchResult>, ps: PointSystem)
    requires |slots| > 0 && |results| > 0
    ensures multiset(WithoutRanks(LeaderboardOf(slots, results, ps)))
         == multiset(ScoreEntries(AggregateSpec(slots, results), ps))
  {
    var u := ScoreEntries(AggregateSpec(slots, results), ps);
    LeaderboardUnfold(slots, results, ps);
    UnrankSorted(u);
  }

  /** Numbering the sorted unranked rows and taking the numbers off again
      gives the sorted rows back. */
  lemma UnrankSorted(u: seq<FinalLeaderboardRow>)
    requires forall i :: 0 <= i < |u| ==> u[i].rank == 0
    ensures WithoutRanks(AssignRanks(SortRows(u))) == SortRows(u)
  {
    var s := SortRows(u);
    forall i | 0 <= i < |s| ensures s[i].rank == 0 {
      assert s[i] in multiset(u);
      var a :| 0 <= a < |u| && u[a] == s[i];
    }
    UnrankAll(s);
  }

  lemma UnrankAll(s: seq<FinalLeaderboardRow>)
    requires forall i :: 0 <= i < |s| ==> s[i].rank == 0
    ensures WithoutRanks(AssignRanks(s)) == s
  {
    var w := WithoutRanks(AssignRanks(s));
    assert |w| == |s|;
    forall i | 0 <= i < |s| ensures w[i] == s[i] {
      assert w[i] == AssignRanks(s)[i].(rank := 0);
    }
  }
}
