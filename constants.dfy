/** The scoring rules the application starts with (constants.ts). */
module Constants {
  import opened Types

  /** The rank a slot keeps when none of its players is found in the results;
      it lies one past the last rank of the default table. */
  const NoRankSentinel: int := 13

  const DefaultPositionPoints: map<int, int> :=
    map[1 := 12, 2 := 9, 3 := 8, 4 := 7, 5 := 6, 6 := 5,
        7 := 4, 8 := 3, 9 := 2, 10 := 1, 11 := 0, 12 := 0]

  const DefaultPointSystem: PointSystem := PointSystem(1, DefaultPositionPoints)

  lemma DefaultKillPoints()
    ensures DefaultPointSystem.pointsPerKill == 1
  {
  }

  /** The default table is keyed by exactly the ranks 1 to 12. */
  lemma DefaultKeys()
    ensures forall r :: r in DefaultPointSystem.positionPoints <==> 1 <= r <= 12
  {
    assert forall r :: 1 <= r <= 12 ==> r in DefaultPositionPoints by {
      forall r | 1 <= r <= 12 ensures r in DefaultPositionPoints {
        assert r == 1 || r == 2 || r == 3 || r == 4 || r == 5 || r == 6 ||
               r == 7 || r == 8 || r == 9 || r == 10 || r == 11 || r == 12;
      }
    }
  }

  /** Rank 1 earns 12, rank 2 earns 9, then one point less per rank down to
      rank 10 with 1 point; ranks 11 and 12 earn nothing. */
  lemma DefaultValues()
    ensures PositionPointsFor(DefaultPointSystem, 1) == 12
    ensures forall r :: 2 <= r <= 10 ==> PositionPointsFor(DefaultPointSystem, r) == 11 - r
    ensures PositionPointsFor(DefaultPointSystem, 11) == 0
    ensures PositionPointsFor(DefaultPointSystem, 12) == 0
  {
    forall r | 2 <= r <= 10 ensures PositionPointsFor(DefaultPointSystem, r) == 11 - r {
      assert r == 2 || r == 3 || r == 4 || r == 5 || r == 6 ||
             r == 7 || r == 8 || r == 9 || r == 10;
    }
  }

  /** Every value of the default table is non-negative and a better (smaller)
      rank never earns fewer points than a worse one. */
  lemma DefaultMonotone()
    ensures forall r :: r in DefaultPositionPoints ==> DefaultPositionPoints[r] >= 0
    ensures forall r, s :: r in DefaultPositionPoints && s in DefaultPositionPoints && r <= s ==>
              DefaultPositionPoints[s] <= DefaultPositionPoints[r]
  {
    DefaultKeys();
    DefaultValues();
  }

  /** The no-match sentinel is not a key, so an unmatched slot gets no
      position points under the default table. */
  lemma SentinelScoresNothing()
    ensures NoRankSentinel !in DefaultPointSystem.positionPoints
    ensures PositionPointsFor(DefaultPointSystem, NoRankSentinel) == 0
  {
  }
}
