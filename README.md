# Free Fire scrims points calculator: the leaderboard engine in Dafny

This project models the scoring core of a web tool that builds a scrim
leaderboard from two inputs. The first is a lobby roster: slots, each with a
number and the raw player names seen in it. The second is the end-of-match
result lines: a rank, a player name and a kill count each. A point system
turns these into points. The engine (App.tsx:54-106) works in six steps:

1. It normalises every name: ASCII lower case, with everything but `a-z` and
   `0-9` dropped.
2. It matches a roster player with a result line when either cleaned name
   contains the other.
3. It aggregates per slot: the kills of every matching (player, line) pair
   are summed, and the best matched rank starts from the sentinel 13. The
   outcome is written into an object keyed by slot number.
4. It scores each slot: kills times the points per kill, plus the rank's
   table entry or 0.
5. It sorts the rows by total points, then by kills, both descending.
6. It numbers the rows from 1.

Around the engine sit three smaller pieces of the model:

- The text the "copy table" button builds (components/Leaderboard.tsx).
- The two point-system editors (components/PointSystemConfig.tsx).
- The default point system (constants.ts).

Modules, one per file:

- `Types` (types.dfy): the records of types.ts and the `|| 0` table lookup.
- `Constants` (constants.dfy): the default point system and the no-match
  sentinel rank.
- `PointConfig` (point_config.dfy): the two editors, written as functions
  that return the new `PointSystem`.
- `Names` (names.dfy): normalisation, `includes` and the match rule.
- `IntKeyedObject` (int_keyed_object.dfy): a JavaScript object with integer
  keys. It is a list of (key, value) entries kept in ascending key order,
  which is the order `Object.entries` hands back array-index keys (the
  integers 0 to 2^32 - 2) in.
- `Aggregation` (aggregation.dfy): the nested `forEach` loops. They are
  methods with loop invariants, proved equal to recursive specification
  functions.
- `Decimal` (decimal.dfy): `${n}` for integers and `parseInt`.
- `Ranking` (ranking.dfy): score rows, the comparator, the stable sort
  (an insertion sort) and the numbering.
- `Engine` (engine.dfy): the whole computation and its end-to-end
  properties.
- `Export` (export.dfy): the clipboard text, `join` and `split`.
- `Scenarios` (scenarios.dfy): concrete boards under the default point system.

Three behaviours of the code may surprise a reader, and the model keeps them:

- An empty roster or an empty result list gives an empty board (App.tsx:55).
  A roster whose players took part but have no result lines yet gets no
  zero-point rows.
- An empty cleaned name is not special-cased. A name made only of symbols
  cleans to the empty key, and it matches every name because `includes('')`
  is true (App.tsx:72).
- Rows tied on both points and kills come out in ascending slot number, not
  in roster order. `Object.entries` lists the slot numbers in ascending
  order (App.tsx:84) and the sort is stable (App.tsx:102).
  `Scenarios.SharedWinnerBoard` shows a case.

## Model

| member | source | states |
|---|---|---|
| Types.PositionPointsFor | App.tsx:87 | the position points of a rank are its table entry when the table has the rank, and 0 when it does not |
| Constants.DefaultKillPoints | constants.ts:5 | the default system gives 1 point per kill |
| Constants.DefaultKeys | constants.ts:6-19 | the default table has exactly the ranks 1 to 12 as keys |
| Constants.DefaultValues | constants.ts:7-18 | rank 1 earns 12, each rank r from 2 to 10 earns 11 - r, and ranks 11 and 12 earn 0 |
| Constants.DefaultMonotone | constants.ts:7-18 | every default value is non-negative, and a better rank never earns less than a worse one |
| Constants.SentinelScoresNothing | App.tsx:62 | the no-match rank 13 is not a key of the default table, so it earns 0 position points |
| PointConfig.UpdatePositionPoint | components/PointSystemConfig.tsx:11-19 | the edited rank holds the new value; the keys are the old keys plus that rank; every other entry and the kill rate are unchanged |
| PointConfig.UpdateKillPoint | components/PointSystemConfig.tsx:21-26 | the kill rate is the new value and the rank table is unchanged |
| PointConfig.UpdateThroughFormKeepsKeys | components/PointSystemConfig.tsx:48-54 | an edit of a rank the form offers, which is an existing key, leaves the key set as it was |
| PointConfig.UpdatePositionPointIdempotent | components/PointSystemConfig.tsx:11-19 | applying the same rank edit twice equals applying it once |
| PointConfig.UpdateKillPointIdempotent | components/PointSystemConfig.tsx:21-26 | applying the same kill-rate edit twice equals applying it once |
| PointConfig.UpdatePositionPointsCommute | components/PointSystemConfig.tsx:11-19 | edits of two different ranks give the same system in either order |
| PointConfig.UpdateKillAndPositionCommute | components/PointSystemConfig.tsx:11-26 | a kill-rate edit and a rank edit give the same system in either order |
| Names.ToLowerAscii | App.tsx:66 | an ASCII capital becomes its lower-case letter and every other character is left alone |
| Names.Normalize | App.tsx:66 | the cleaned name is never longer than the raw name and holds only `a-z` and `0-9` |
| Names.NormalizeConcat | App.tsx:66 | cleaning works character by character: cleaning a concatenation concatenates the cleaned parts |
| Names.NormalizeFixpoint | App.tsx:66 | cleaning leaves a string unchanged exactly when it holds only `a-z` and `0-9` |
| Names.NormalizeIdempotent | App.tsx:66 | cleaning a cleaned name changes nothing |
| Names.NormalizeIgnoresCase | App.tsx:66 | names that differ only in ASCII letter case clean to the same key |
| Names.NormalizeOrigin | App.tsx:66 | a character is in the cleaned name exactly when some raw character lower-cases to it and it is kept |
| Names.Contains | App.tsx:72 | definition of `includes`: the haystack starts with the needle or its tail includes it; Names.ContainsIff states its meaning |
| Names.ContainsIff | App.tsx:72 | `includes` holds exactly when the needle occurs at some position of the haystack |
| Names.AbsentFirstCharNotContained | App.tsx:72 | a needle whose first character is missing from the haystack is not included in it |
| Names.ContainsEmpty | App.tsx:72 | the empty needle is included in every string |
| Names.Matches | App.tsx:72 | definition of the three-way test on the cleaned names; Names.MatchesIff and Names.MatchesSymmetric state its meaning |
| Names.MatchesIff | App.tsx:72 | a player and a line match exactly when one cleaned name occurs inside the other; the equality test adds nothing |
| Names.MatchesSymmetric | App.tsx:72 | the match rule gives the same answer with player and line swapped |
| Names.EmptyKeyMatchesEverything | App.tsx:72 | a name that cleans to the empty key matches every name, on either side |
| Names.MatchExamples | App.tsx:66-72 | "Ace" matches "ACE123", "Bee" does not, and "!!!" cleans to the empty key and matches "Zed" |
| IntKeyedObject.Put | App.tsx:81 | writing a key keeps the entries in ascending key order and adds the key to the key set |
| IntKeyedObject.Get | App.tsx:84-87 | definition of a property read on the object; IntKeyedObject.PutGet and IntKeyedObject.GetSomeIffKey state what it returns |
| IntKeyedObject.PutGet | App.tsx:81 | after a write, the written key reads back the new value and every other key reads back its old value |
| IntKeyedObject.GetSomeIffKey | App.tsx:81-84 | a key reads back a value exactly when it is a key of the object |
| IntKeyedObject.KeysCount | App.tsx:84 | an object in ascending key order has exactly one entry per key |
| Aggregation.PlayerMatchesCount | App.tsx:68-76 | one player picks up each line as often as it occurs in the results when the names match, and otherwise not at all |
| Aggregation.PlayerMatches | App.tsx:68-76 | the results one player matches, in result order, never more than the results; Aggregation.PlayerMatchesCount states their multiplicities |
| Aggregation.MatchedPairs | App.tsx:65-76 | definition of the matched (player, line) pairs of a slot, player by player; Aggregation.MatchedPairsCount states their multiplicities |
| Aggregation.SumKills | App.tsx:73 | definition of the kill total of the matched lines, in visiting order; Aggregation.SumKillsPermutation states that the order does not matter |
| Aggregation.Stats | App.tsx:60-81 | definition of the outcome stored for one slot; Aggregation.UnmatchedSlot, Aggregation.BestRankMeaning and Aggregation.SlotTotals state its meaning |
| Aggregation.MatchedPairsCount | App.tsx:65-76 | a line is counted once for every player of the slot it matches (double counting) |
| Aggregation.MinRank | App.tsx:62-74 | the best rank is at most its start value and at most every matched rank, and it is the start value or one of those ranks |
| Aggregation.SumKillsPermutation | App.tsx:73 | the kill total does not depend on the order the matched lines are visited in |
| Aggregation.UnmatchedSlot | App.tsx:61-62 | a slot none of whose players matches any line records 0 kills and rank 13 |
| Aggregation.BestRankMeaning | App.tsx:62-74 | the recorded rank is below 13 exactly when some matched line has a rank below 13 |
| Aggregation.SlotNos | App.tsx:60 | the slot-number set holds the number of every slot and nothing else |
| Aggregation.AggregateSpec | App.tsx:57-82 | the filled object is in ascending key order, and its keys are exactly the slot numbers of the roster |
| Aggregation.AggregateLastWins | App.tsx:81 | the value under a slot number is the outcome of the last roster slot with that number |
| Aggregation.AccumulatePlayer | App.tsx:68-76 | the inner loop adds the kills of the player's matching lines and lowers the best rank to the least of their ranks |
| Aggregation.SlotTotals | App.tsx:60-77 | the per-slot loops compute that slot's kill sum over all matching pairs and its best rank from 13 |
| Aggregation.Aggregate | App.tsx:57-82 | the aggregation loop builds exactly the object the specification describes |
| Decimal.NatToString | App.tsx:92 | a natural number is written as at least one digit, with no leading zero |
| Decimal.IntToString | App.tsx:92 | `${n}`: at least one character, a minus sign exactly for negative numbers, then only digits with no leading zero (a lone "0" for zero); with Decimal.IntToStringRoundTrip this fixes the text |
| Decimal.ParseInt | App.tsx:85 | definition of `parseInt` on a non-empty digit string, optionally after a minus sign; Decimal.IntToStringRoundTrip states that it inverts Decimal.IntToString |
| Decimal.IntToStringRoundTrip | App.tsx:84-85 | `parseInt` reads back the number a key was written from |
| Decimal.IntToStringInjective | App.tsx:92 | different numbers are written differently |
| Decimal.IntToStringPlain | components/Leaderboard.tsx:14 | a written number holds no tab and no newline |
| Ranking.TeamName | App.tsx:92 | the team name is "Slot " followed by the written slot number |
| Ranking.TeamNameRoundTrip | App.tsx:92 | the slot number reads back from the team name, so different slots get different names |
| Ranking.ScoreRow | App.tsx:85-98 | rank placeholder 0, kill points from kills and rate, position points from the table, total as their sum, and win exactly when the best rank is 1 |
| Ranking.ScoreEntries | App.tsx:84-99 | one scored row per object entry, in entry order |
| Ranking.Compare | App.tsx:102 | definition of the comparator: b's points minus a's, or b's kills minus a's when the points are equal; Ranking.CompareMeaning states its sign meaning |
| Ranking.KillRateWidensLead | App.tsx:86-98 | raising the points per kill never lowers the total-points lead of a slot with more kills over a slot with fewer |
| Ranking.KillRateKeepsEqualKillsOrder | App.tsx:86-102 | for two slots with equal kills, the comparator gives the same answer under any points per kill |
| Ranking.CompareMeaning | App.tsx:102 | the comparator is negative exactly when the first row has more points, or equal points and more kills; it is zero exactly on a tie in both |
| Ranking.Insert | App.tsx:102 | one insertion step adds exactly the new row to the rows |
| Ranking.InsertSorted | App.tsx:102 | an insertion step keeps the rows sorted by the comparator |
| Ranking.SortRows | App.tsx:102 | the sort returns a permutation of its input in which no row is outranked by a later row |
| Ranking.SortRowsTieBreak | App.tsx:84-102 | when the input rows have strictly ascending slot numbers, the sorted rows are ordered by points, then kills, then ascending slot number |
| Ranking.RankFrom | App.tsx:102-105 | the row at position i is the input row i with rank from + i + 1 |
| Ranking.AssignRanks | App.tsx:102-105 | the row at position i is the sorted row i with rank i + 1 |
| Engine.ComputeLeaderboard | App.tsx:54-106 | the engine returns the board the specification functions describe |
| Engine.LeaderboardOf | App.tsx:54-106 | definition of the engine's result as early exit, aggregation, scoring, sort and numbering; the Engine lemmas below state its properties |
| Engine.LeaderboardEmptyIff | App.tsx:55 | the board is empty exactly when the roster or the results are empty |
| Engine.LeaderboardOneRowPerSlot | App.tsx:57-84 | with input present, the board has one row per distinct slot number of the roster, no row for any other number, and no number twice |
| Engine.LeaderboardRowContents | App.tsx:81-105 | the row of a slot number holds the score of the last roster slot with that number, ranked by its position on the board |
| Engine.LeaderboardOrder | App.tsx:84-105 | points never rise down the board, kills never rise among equal points, rows tied on both come in ascending slot number, and row i has rank i + 1 |
| Engine.LeaderboardIsPermutation | App.tsx:84-105 | with the ranks taken off, the board is a permutation of the scored rows |
| Export.Split | components/Leaderboard.tsx:13-16 | splitting (JavaScript `split`) gives at least one piece, and no piece holds the separator |
| Export.SplitJoin | components/Leaderboard.tsx:13-15 | splitting a join of separator-free parts gives the parts back |
| Export.Join | components/Leaderboard.tsx:13-15 | definition of `join`; Export.SplitJoin states that splitting inverts it and Export.JoinSeparatorCount that it adds one separator between neighbours |
| Export.WinMark | components/Leaderboard.tsx:14 | the win mark is "W" for a win and "-" otherwise |
| Export.RowFields | components/Leaderboard.tsx:14 | a row has seven fields: rank, "Slot " and the slot number, win mark, kills, kill points, position points, and total |
| Export.RowLineTabs | components/Leaderboard.tsx:14 | every copied row line holds exactly six tabs |
| Export.RowLineRoundTrip | components/Leaderboard.tsx:14 | a row line splits at tabs into exactly its seven fields, and every number in it reads back as the row's value |
| Export.RowLinePlain | components/Leaderboard.tsx:13-15 | a row line holds no newline |
| Export.RowLine | components/Leaderboard.tsx:13-14 | definition of one copied row as its fields joined by tabs; Export.RowLineTabs, Export.RowLineRoundTrip and Export.RowLinePlain state its shape |
| Export.RowLines | components/Leaderboard.tsx:13-14 | one line per row, in board order |
| Export.HeaderText | components/Leaderboard.tsx:16 | the header is exactly the seven column names separated by tabs and followed by a newline |
| Export.HeaderColumns | components/Leaderboard.tsx:16 | the header line splits at tabs into the seven column names, in the order the rows fill them, and holds no newline |
| Export.CopyTextLines | components/Leaderboard.tsx:10-17 | the text of a non-empty board splits at newlines into the header line and then the row lines in board order, which is one more line than the board has rows |
| Export.CopyText | components/Leaderboard.tsx:13-17 | definition of the clipboard text as header plus the row lines joined by newlines; Export.CopyTextLines states its lines |
| Scenarios.SingleSlotBoard | App.tsx:54-106 | slot 1 with "Ace" and "Bee", against the line (rank 1, "ACE123", 5 kills), gives one winning row with 5 kills, 5 + 12 = 17 points, rank 1 |
| Scenarios.SharedWinnerBoard | App.tsx:54-106 | two slots both fuzzy-matching the rank-1 line both win with equal scores, and the lower slot number comes first, although it was entered second |
| Scenarios.DoubleCountedKills | App.tsx:65-76 | two players of one slot that both match a 3-kill line give that slot 6 kills |
| Scenarios.DuplicateSlotBoard | App.tsx:81 | two roster slots with the same number give one row, holding the outcome of the later slot |

## Left out

- services/geminiService.ts is not part of this model. It calls an external
  AI service to read screenshots. Its output appears here only as the
  arbitrary roster and result lists the engine is given.
- components/ImageUploader.tsx is not part of this model. It covers file
  reading, image previews and the upload limit.
- `handleProcessImages` (App.tsx:23-51) is left out: asynchronous calls,
  React state updates and alerts.
- The rendering of all components is left out, including the JSX, the CSS
  and the `null` returned for an empty board. The clipboard write and the
  alert of `handleCopyTable` (components/Leaderboard.tsx:17-18) are left out
  as well. `Export.CopyTextLines` requires a non-empty board, because the button
  only exists then (components/Leaderboard.tsx:10).
- Numbers are unbounded integers. `Number(...)` in the form may produce
  fractions or NaN (components/PointSystemConfig.tsx:42, 54), and JavaScript
  arithmetic is floating point. Neither is modelled.
- Names.ToLowerAscii: folds ASCII letters only. JavaScript `toLowerCase`
  also maps some non-ASCII characters, a few of them onto ASCII letters.
- Decimal.IntToString: writes every integer in plain decimal. JavaScript
  switches to exponential notation for magnitudes of 10^21 and above.
- IntKeyedObject.Put: orders every key numerically. `Object.entries` lists
  only array-index keys (the integers 0 to 2^32 - 2) in ascending order.
  Negative slot numbers, fractional ones and integers of 2^32 - 1 or more
  would be listed after them, in insertion order, as strings.
- Ranking.SortRows: is a stable insertion sort. It stands for
  `Array.prototype.sort`, which the language guarantees to be stable but
  whose algorithm is not modelled.
- Engine.ComputeLeaderboard: is one call of the computation. `useMemo`
  caching and the dependency list (App.tsx:106) are left out.
