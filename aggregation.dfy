/** Steps 1 to 3 of the leaderboard engine (App.tsx): for every slot, match
    each of its players against every result line, add up the kills of the
    matching lines and keep the best (smallest) matched rank, then store the
    outcome under the slot number in `slotPointsMap`. */
module Aggregation {
  import opened Types
  import opened Names
  import opened Constants
  import Obj = IntKeyedObject

  /** The result lines one player matches, in result order. */
  function PlayerMatches(pName: string, results: seq<MatchResult>): (r: seq<MatchResult>)
    ensures |r| <= |results|
  {
    if results == [] then []
    else
      var init, last := results[..|results| - 1], results[|results| - 1];
      PlayerMatches(pName, init) + (if Matches(pName, last.playerName) then [last] else [])
  }

  /** How many of the players match a result name. */
  function MatchingPlayers(players: seq<string>, name: string): (n: nat)
    ensures n <= |players|
  {
    if players == [] then 0
    else MatchingPlayers(players[..|players| - 1], name) +
         (if Matches(players[|players| - 1], name) then 1 else 0)
  }

  /** Every (player, result) pair that matches, players outermost, results
      innermost, exactly as the two nested `forEach` loops visit them. */
  function MatchedPairs(players: seq<string>, results: seq<MatchResult>): seq<MatchResult> {
    if players == [] then []
    else MatchedPairs(players[..|players| - 1], results) + PlayerMatches(players[|players| - 1], results)
  }

  /** Sum of the kills of a list of result lines. */
  function SumKills(ms: seq<MatchResult>): int {
    if ms == [] then 0 else SumKills(ms[..|ms| - 1]) + ms[|ms| - 1].kills
  }

  /** `init` lowered to every rank of the list. */
  function MinRank(init: int, ms: seq<MatchResult>): (r: int)
    ensures r <= init
    ensures forall m :: m in ms ==> r <= m.rank
    ensures r == init || exists m :: m in ms && m.rank == r
  {
    if ms == [] then init
    else
      var before, last := MinRank(init, ms[..|ms| - 1]), ms[|ms| - 1];
      assert ms == ms[..|ms| - 1] + [last];
      if last.rank < before then last.rank else before
  }

  /** What the engine records for one slot. */
  function Stats(slot: SlotData, results: seq<MatchResult>): SlotStats {
    var pairs := MatchedPairs(slot.players, results);
    SlotStats(SumKills(pairs), MinRank(NoRankSentinel, pairs))
  }

  /** The slot numbers that occur in the roster. */
  function SlotNos(slots: seq<SlotData>): (ns: set<int>)
    ensures forall i :: 0 <= i < |slots| ==> slots[i].slotNo in ns
    ensures forall n :: n in ns ==> exists i :: 0 <= i < |slots| && slots[i].slotNo == n
  {
    if slots == [] then {}
    else SlotNos(slots[..|slots| - 1]) + {slots[|slots| - 1].slotNo}
  }

  /** `slotPointsMap` after the slots have been processed in order: each slot
      writes its outcome under its number, a later slot overwriting an
      earlier one with the same number. */
  function AggregateSpec(slots: seq<SlotData>, results: seq<MatchResult>): (r: Obj.Entries<SlotStats>)
    ensures Obj.Ascending(r)
    ensures Obj.Keys(r) == SlotNos(slots)
  {
    if slots == [] then []
    else
      var init, last := slots[..|slots| - 1], slots[|slots| - 1];
      Obj.Put(AggregateSpec(init, results), last.slotNo, Stats(last, results))
  }

  lemma PlayerMatchesStep(pName: string, results: seq<MatchResult>, r: int)
    requires 0 <= r < |results|
    ensures PlayerMatches(pName, results[..r + 1])
         == PlayerMatches(pName, results[..r]) +
            (if Matches(pName, results[r].playerName) then [results[r]] else [])
  {
    assert results[..r + 1][..r] == results[..r];
  }

  lemma SumKillsSnoc(ms: seq<MatchResult>, x: MatchResult)
    ensures SumKills(ms + [x]) == SumKills(ms) + x.kills
  {
    assert (ms + [x])[..|ms|] == ms;
  }

  lemma MinRankSnoc(init: int, ms: seq<MatchResult>, x: MatchResult)
    ensures MinRank(init, ms + [x]) == if x.rank < MinRank(init, ms) then x.rank else MinRank(init, ms)
  {
    assert (ms + [x])[..|ms|] == ms;
  }

  /** Summing the kills of two lists one after the other. */
  lemma {:induction false} SumKillsConcat(a: seq<MatchResult>, b: seq<MatchResult>)
    ensures SumKills(a + b) == SumKills(a) + SumKills(b)
    decreases |b|
  {
    if b == [] {
      assert a + b == a;
    } else {
      var init, last := b[..|b| - 1], b[|b| - 1];
      assert a + b == (a + init) + [last];
      assert b == init + [last];
      SumKillsSnoc(a + init, last);
      SumKillsSnoc(init, last);
      SumKillsConcat(a, init);
    }
  }

  /** Lowering a rank through two lists one after the other. */
  lemma {:induction false} MinRankConcat(init: int, a: seq<MatchResult>, b: seq<MatchResult>)
    ensures MinRank(init, a + b) == MinRank(MinRank(init, a), b)
    decreases |b|
  {
    if b == [] {
      assert a + b == a;
    } else {
      var front, last := b[..|b| - 1], b[|b| - 1];
      assert a + b == (a + front) + [last];
      assert b == front + [last];
      MinRankSnoc(init, a + front, last);
      MinRankSnoc(MinRank(init, a), front, last);
      MinRankConcat(init, a, front);
    }
  }

  /** A player picks up each matching result line as often as it occurs and
      no other line. */
  lemma {:induction false} PlayerMatchesCount(pName: string, results: seq<MatchResult>, m: MatchResult)
    ensures multiset(PlayerMatches(pName, results))[m]
         == if Matches(pName, m.playerName) then multiset(results)[m] else 0
  {
    if results != [] {
      var init, last := results[..|results| - 1], results[|results| - 1];
      assert results == init + [last];
      PlayerMatchesCount(pName, init, m);
    }
  }

  /** Double counting: a result line is counted once for every player of the
      slot that it matches. */
  lemma {:induction false} MatchedPairsCount(players: seq<string>, results: seq<MatchResult>, m: MatchResult)
    ensures multiset(MatchedPairs(players, results))[m]
         == MatchingPlayers(players, m.playerName) * multiset(results)[m]
  {
    if players != [] {
      var init, last := players[..|players| - 1], players[|players| - 1];
      var c, n := MatchingPlayers(init, m.playerName), multiset(results)[m];
      var before := multiset(MatchedPairs(init, results))[m];
      var here := multiset(PlayerMatches(last, results))[m];
      MatchedPairsCount(init, results, m);
      PlayerMatchesCount(last, results, m);
      assert multiset(MatchedPairs(players, results))[m] == before + here;
      if Matches(last, m.playerName) {
        assert MatchingPlayers(players, m.playerName) == c + 1;
        CountStep(c, n);
      } else {
        assert MatchingPlayers(players, m.playerName) == c;
      }
    }
  }

  lemma CountStep(c: int, n: int)
    ensures (c + 1) * n == c * n + n
  {
  }

  /** The kill total does not depend on the order the lines are visited in. */
  lemma {:induction false} SumKillsPermutation(a: seq<MatchResult>, b: seq<MatchResult>)
    requires multiset(a) == multiset(b)
    ensures SumKills(a) == SumKills(b)
    decreases |a|
  {
    if a != [] {
      var init, last := a[..|a| - 1], a[|a| - 1];
      assert a == init + [last];
      assert last in multiset(b);
      var k :| 0 <= k < |b| && b[k] == last;
      var rest := b[..k] + b[k + 1..];
      assert b == b[..k] + [b[k]] + b[k + 1..];
      assert multiset(rest) == multiset(b) - multiset{last};
      assert multiset(init) == multiset(a) - multiset{last};
      SumKillsPermutation(init, rest);
      SumKillsConcat(b[..k] + [b[k]], b[k + 1..]);
      SumKillsConcat(b[..k], b[k + 1..]);
      SumKillsSnoc(b[..k], b[k]);
    }
  }

  /** A slot none of whose players matches any line scores no kills and keeps
      the sentinel rank. */
  lemma {:induction false} UnmatchedSlot(slot: SlotData, results: seq<MatchResult>)
    requires forall p, m :: p in slot.players && m in results ==> !Matches(p, m.playerName)
    ensures Stats(slot, results) == SlotStats(0, NoRankSentinel)
  {
    NoPairs(slot.players, results);
  }

  lemma {:induction false} NoPairs(players: seq<string>, results: seq<MatchResult>)
    requires forall p, m :: p in players && m in results ==> !Matches(p, m.playerName)
    ensures MatchedPairs(players, results) == []
  {
    if players != [] {
      var init, last := players[..|players| - 1], players[|players| - 1];
      assert forall p :: p in init ==> p in players;
      assert last in players;
      NoPairs(init, results);
      forall m | m in results ensures multiset(PlayerMatches(last, results))[m] == 0 {
        PlayerMatchesCount(last, results, m);
      }
      var pm := PlayerMatches(last, results);
      assert pm == [] by {
        if pm != [] {
          PlayerMatchesCount(last, results, pm[0]);
        }
      }
    }
  }

  /** The best rank is below the sentinel exactly when some matched line has a
      rank below it. */
  lemma BestRankMeaning(slot: SlotData, results: seq<MatchResult>)
    ensures var pairs := MatchedPairs(slot.players, results);
      (Stats(slot, results).rank < NoRankSentinel <==> exists m :: m in pairs && m.rank < NoRankSentinel)
  {
  }

  /** The value stored for a slot number is the stats of the last slot that
      carries that number. */
  lemma {:induction false} AggregateLastWins(slots: seq<SlotData>, results: seq<MatchResult>, i: int)
    requires 0 <= i < |slots|
    requires forall j :: i < j < |slots| ==> slots[j].slotNo != slots[i].slotNo
    ensures Obj.Get(AggregateSpec(slots, results), slots[i].slotNo) == Some(Stats(slots[i], results))
  {
    var init, last := slots[..|slots| - 1], slots[|slots| - 1];
    Obj.PutGet(AggregateSpec(init, results), last.slotNo, Stats(last, results), slots[i].slotNo);
    if i < |slots| - 1 {
      AggregateLastWins(init, results, i);
    }
  }

  /** The innermost loop of the engine: one player against every result line,
      adding to the running kill total and best rank of the slot. */
  method AccumulatePlayer(pName: string, results: seq<MatchResult>, kills0: int, best0: int)
    returns (totalKills: int, bestRank: int)
    ensures totalKills == kills0 + SumKills(PlayerMatches(pName, results))
    ensures bestRank == MinRank(best0, PlayerMatches(pName, results))
  {
    totalKills, bestRank := kills0, best0;
    var cleanPName := Normalize(pName);
    for r := 0 to |results|
      invariant totalKills == kills0 + SumKills(PlayerMatches(pName, results[..r]))
      invariant bestRank == MinRank(best0, PlayerMatches(pName, results[..r]))
    {
      var res := results[r];
      var cleanResName := Normalize(res.playerName);
      ghost var seen := PlayerMatches(pName, results[..r]);
      PlayerMatchesStep(pName, results, r);
      if Contains(cleanResName, cleanPName) || Contains(cleanPName, cleanResName) || cleanResName == cleanPName {
        assert Matches(pName, res.playerName);
        SumKillsSnoc(seen, res);
        MinRankSnoc(best0, seen, res);
        totalKills := totalKills + res.kills;
        if res.rank < bestRank {
          bestRank := res.rank;
        }
      } else {
        assert !Matches(pName, res.playerName);
        assert PlayerMatches(pName, results[..r + 1]) == seen;
      }
    }
    assert results[..|results|] == results;
  }

  /** The body of the per-slot loop: every player of the slot in turn, from
      no kills and the sentinel rank. */
  method SlotTotals(slot: SlotData, results: seq<MatchResult>) returns (stats: SlotStats)
    ensures stats == Stats(slot, results)
  {
    var totalKills := 0;
    var bestRank := NoRankSentinel;
    for p := 0 to |slot.players|
      invariant totalKills == SumKills(MatchedPairs(slot.players[..p], results))
      invariant bestRank == MinRank(NoRankSentinel, MatchedPairs(slot.players[..p], results))
    {
      ghost var done := MatchedPairs(slot.players[..p], results);
      assert slot.players[..p + 1][..p] == slot.players[..p];
      assert MatchedPairs(slot.players[..p + 1], results) == done + PlayerMatches(slot.players[p], results);
      SumKillsConcat(done, PlayerMatches(slot.players[p], results));
      MinRankConcat(NoRankSentinel, done, PlayerMatches(slot.players[p], results));
      totalKills, bestRank := AccumulatePlayer(slot.players[p], results, totalKills, bestRank);
    }
    assert slot.players[..|slot.players|] == slot.players;
    stats := SlotStats(totalKills, bestRank);
  }

  /** The aggregation loop of the engine, filling `slotPointsMap` slot by slot. */
  method Aggregate(slots: seq<SlotData>, results: seq<MatchResult>)
    returns (slotPointsMap: Obj.Entries<SlotStats>)
    ensures slotPointsMap == AggregateSpec(slots, results)
  {
    slotPointsMap := [];
    for s := 0 to |slots|
      invariant slotPointsMap == AggregateSpec(slots[..s], results)
    {
      var stats := SlotTotals(slots[s], results);
      assert slots[..s + 1][..s] == slots[..s];
      slotPointsMap := Obj.Put(slotPointsMap, slots[s].slotNo, stats);
    }
    assert slots[..|slots|] == slots;
  }
}
