/** Worked boards: concrete rosters and result lines, worked out by proof
    through the engine's specification function under the default point
    system. */
module Scenarios {
  import opened Types
  import opened Constants
  import opened Names
  import opened Aggregation
  import opened Ranking
  import opened Engine
  import opened Decimal
  import Obj = IntKeyedObject

  lemma MatchesOfOne(p: string, m: MatchResult)
    ensures PlayerMatches(p, [m]) == if Matches(p, m.playerName) then [m] else []
  {
    assert [m][..0] == [];
  }

  lemma PairsOfOne(p: string, rs: seq<MatchResult>)
    ensures MatchedPairs([p], rs) == PlayerMatches(p, rs)
  {
    assert [p][..0] == [];
    assert [] + PlayerMatches(p, rs) == PlayerMatches(p, rs);
  }

  lemma PairsOfTwo(p: string, q: string, rs: seq<MatchResult>)
    ensures MatchedPairs([p, q], rs) == PlayerMatches(p, rs) + PlayerMatches(q, rs)
  {
    assert [p, q][..1] == [p];
    PairsOfOne(p, rs);
  }

  lemma StatsOfOnce(m: MatchResult)
    requires m.rank < NoRankSentinel
    ensures SumKills([m]) == m.kills && MinRank(NoRankSentinel, [m]) == m.rank
  {
    assert [m][..0] == [];
  }

  lemma StatsOfTwice(m: MatchResult)
    requires m.rank < NoRankSentinel
    ensures SumKills([m, m]) == 2 * m.kills && MinRank(NoRankSentinel, [m, m]) == m.rank
  {
    assert [m, m][..1] == [m];
    StatsOfOnce(m);
  }

  lemma StatsOfNone()
    ensures SumKills([]) == 0 && MinRank(NoRankSentinel, []) == NoRankSentinel
  {
  }

  lemma AggregateOne(a: SlotData, rs: seq<MatchResult>)
    ensures AggregateSpec([a], rs) == [(a.slotNo, Stats(a, rs))]
  {
    assert [a][..0] == [];
  }

  lemma AggregateTwo(a: SlotData, b: SlotData, rs: seq<MatchResult>)
    ensures AggregateSpec([a, b], rs) == Obj.Put([(a.slotNo, Stats(a, rs))], b.slotNo, Stats(b, rs))
  {
    assert [a, b][..1] == [a];
    AggregateOne(a, rs);
  }

  /** A board of one slot number is its one scored row, ranked 1. */
  lemma BoardOfOne(slots: seq<SlotData>, rs: seq<MatchResult>, ps: PointSystem, k: int, st: SlotStats)
    requires |slots| > 0 && |rs| > 0
    requires AggregateSpec(slots, rs) == [(k, st)]
    ensures LeaderboardOf(slots, rs, ps) == [ScoreRow(k, st, ps).(rank := 1)]
  {
    var row := ScoreRow(k, st, ps);
    assert ScoreEntries([(k, st)], ps) == [row];
    assert [row][1..] == [];
    assert SortRows([row]) == [row];
    LeaderboardUnfold(slots, rs, ps);
  }

  /** A board of two slot numbers tied on points and kills keeps their
      ascending order. */
  lemma BoardOfTiedPair(slots: seq<SlotData>, rs: seq<MatchResult>, ps: PointSystem, k1: int, k2: int, st: SlotStats)
    requires |slots| > 0 && |rs| > 0
    requires AggregateSpec(slots, rs) == [(k1, st), (k2, st)]
    ensures LeaderboardOf(slots, rs, ps) == [ScoreRow(k1, st, ps).(rank := 1), ScoreRow(k2, st, ps).(rank := 2)]
  {
    var r1, r2 := ScoreRow(k1, st, ps), ScoreRow(k2, st, ps);
    ScoreTwo(k1, k2, st, ps);
    SortTiedPair(r1, r2);
    RankTwo(r1, r2);
    LeaderboardUnfold(slots, rs, ps);
  }

  lemma ScoreTwo(k1: int, k2: int, st: SlotStats, ps: PointSystem)
    ensures ScoreEntries([(k1, st), (k2, st)], ps) == [ScoreRow(k1, st, ps), ScoreRow(k2, st, ps)]
  {
  }

  lemma RankTwo(r1: FinalLeaderboardRow, r2: FinalLeaderboardRow)
    ensures AssignRanks([r1, r2]) == [r1.(rank := 1), r2.(rank := 2)]
  {
  }

  /** Sorting two tied rows leaves them as they are. */
  lemma SortTiedPair(r1: FinalLeaderboardRow, r2: FinalLeaderboardRow)
    requires Compare(r2, r1) == 0
    ensures SortRows([r1, r2]) == [r1, r2]
  {
    assert [r1, r2][1..] == [r2];
    assert [r2][1..] == [];
    assert SortRows([r2]) == [r2];
  }

  lemma SlotNames()
    ensures TeamName(1) == "Slot 1" && TeamName(2) == "Slot 2" && TeamName(3) == "Slot 3"
  {
    assert IntToString(1) == "1";
    assert IntToString(2) == "2";
    assert IntToString(3) == "3";
  }

  /** A slot whose first player matches the result line "ACE123" under a
      clan tag, and whose second player matches nothing, scores the kills and
      the rank-1 points of that line and is the winner. */
  lemma SingleSlotBoard()
    ensures LeaderboardOf([SlotData(1, ["Ace", "Bee"])], [MatchResult(1, "ACE123", 5)], DefaultPointSystem)
         == [FinalLeaderboardRow(1, 1, "Slot 1", true, 5, 12, 17, 5)]
  {
    var m := MatchResult(1, "ACE123", 5);
    var slot := SlotData(1, ["Ace", "Bee"]);
    MatchExamples();
    MatchesOfOne("Ace", m);
    MatchesOfOne("Bee", m);
    PairsOfTwo("Ace", "Bee", [m]);
    assert [m] + [] == [m];
    StatsOfOnce(m);
    AggregateOne(slot, [m]);
    BoardOfOne([slot], [m], DefaultPointSystem, 1, SlotStats(5, 1));
    DefaultValues();
    SlotNames();
  }

  /** Fuzzy matching can give two slots the same rank-1 line: both are marked
      as winners with the same score, and the lower slot number comes first
      although it was entered second. */
  lemma SharedWinnerBoard()
    ensures LeaderboardOf([SlotData(2, ["Ace"]), SlotData(1, ["ACE123"])], [MatchResult(1, "Ace", 4)], DefaultPointSystem)
         == [FinalLeaderboardRow(1, 1, "Slot 1", true, 4, 12, 16, 4),
             FinalLeaderboardRow(2, 2, "Slot 2", true, 4, 12, 16, 4)]
  {
    var m := MatchResult(1, "Ace", 4);
    var st := SlotStats(4, 1);
    SharedWinnerEntries();
    BoardOfTiedPair([SlotData(2, ["Ace"]), SlotData(1, ["ACE123"])], [m], DefaultPointSystem, 1, 2, st);
    DefaultValues();
    SlotNames();
  }

  lemma SharedWinnerEntries()
    ensures AggregateSpec([SlotData(2, ["Ace"]), SlotData(1, ["ACE123"])], [MatchResult(1, "Ace", 4)])
         == [(1, SlotStats(4, 1)), (2, SlotStats(4, 1))]
  {
    var m := MatchResult(1, "Ace", 4);
    var s2, s1 := SlotData(2, ["Ace"]), SlotData(1, ["ACE123"]);
    var st := SlotStats(4, 1);
    SharedWinnerStats();
    AggregateTwo(s2, s1, [m]);
    Obj.PutSingle(2, st, 1, st);
  }

  lemma SharedWinnerStats()
    ensures Stats(SlotData(2, ["Ace"]), [MatchResult(1, "Ace", 4)]) == SlotStats(4, 1)
    ensures Stats(SlotData(1, ["ACE123"]), [MatchResult(1, "Ace", 4)]) == SlotStats(4, 1)
  {
    var m := MatchResult(1, "Ace", 4);
    SharedWinnerMatches();
    MatchesOfOne("Ace", m);
    MatchesOfOne("ACE123", m);
    PairsOfOne("Ace", [m]);
    PairsOfOne("ACE123", [m]);
    StatsOfOnce(m);
  }

  lemma SharedWinnerMatches()
    ensures Matches("Ace", "Ace") && Matches("ACE123", "Ace")
  {
    NormalizeExamples();
    assert "ace123"[..3] == "ace";
    ContainsSelf("ace");
  }

  /** Every player of a slot that matches a line adds that line's kills again:
      two players whose cleaned names both occur in "abcd" count its 3 kills
      twice. */
  lemma DoubleCountedKills()
    ensures Stats(SlotData(7, ["ab", "abc"]), [MatchResult(2, "abcd", 3)]) == SlotStats(6, 2)
  {
    var m := MatchResult(2, "abcd", 3);
    PrefixesMatch();
    MatchesOfOne("ab", m);
    MatchesOfOne("abc", m);
    PairsOfTwo("ab", "abc", [m]);
    assert [m] + [m] == [m, m];
    StatsOfTwice(m);
  }

  lemma PrefixesMatch()
    ensures Matches("ab", "abcd") && Matches("abc", "abcd")
  {
    NormalizeFixpoint("ab");
    NormalizeFixpoint("abc");
    NormalizeFixpoint("abcd");
    assert "abcd"[..2] == "ab" && "abcd"[..3] == "abc";
  }

  /** Two roster slots with the same number leave one row, holding the
      outcome of the later slot: here the later slot matches nothing, so the
      earlier slot's win is lost. */
  lemma DuplicateSlotBoard()
    ensures LeaderboardOf([SlotData(3, ["Ace"]), SlotData(3, ["Bee"])], [MatchResult(1, "ACE123", 5)], DefaultPointSystem)
         == [FinalLeaderboardRow(1, 3, "Slot 3", false, 0, 0, 0, 0)]
  {
    var m := MatchResult(1, "ACE123", 5);
    var a, b := SlotData(3, ["Ace"]), SlotData(3, ["Bee"]);
    MatchExamples();
    MatchesOfOne("Ace", m);
    MatchesOfOne("Bee", m);
    PairsOfOne("Ace", [m]);
    PairsOfOne("Bee", [m]);
    StatsOfOnce(m);
    StatsOfNone();
    var lost := SlotStats(0, NoRankSentinel);
    assert Stats(b, [m]) == lost;
    AggregateTwo(a, b, [m]);
    Obj.PutSingle(3, Stats(a, [m]), 3, lost);
    BoardOfOne([a, b], [m], DefaultPointSystem, 3, lost);
    SentinelScoresNothing();
    SlotNames();
  }
}
