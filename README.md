# A verified model of the angbyif schedule optimiser

The program builds a season schedule for a team of players. The season's
games are grouped in rounds. It starts from a base schedule, made by one
of several construction heuristics. Then it climbs hills: it perturbs the
schedule, ranks the result against the current schedule, and keeps the
better one. The repository holds three generations of the program:
`2014/schema.cc`, `HT15/schema.cc` and `VT15/schema.cc`. They share one
engine and differ in rules.

This project is one Dafny model of the three, selected by
`Model.Variant` (`Y2014 | HT15 | VT15`). It covers:

- **Game bookkeeping** (`model.dfy`). Each game keeps running totals of
  score, leaders (`ledare`), goalkeeper and counted players, a players
  list and a 32-bit players mask. What a player adds depends on the
  generation: 2014 adds the raw `ledare`, later ones `!!ledare`. A game's
  score is the raw sum in 2014 and the C average `score / count` later.
- **Bit masks** (`bits.dfy`): `test_bit`, `set_bit`, `clear_bit`,
  `or_mask`, `mask & ~mask`, `count_bits` and `rand_bit` on words below
  2^32. **C arithmetic** (`carith.dfy`): truncating `/` and `%`.
- **The schedule** (`schedule.dfy`), class `Sched`. It holds the games,
  the busy mask of each round, `games_per_player` and the
  `games_together` pair matrix. `Sched.Valid()` ties them all to the
  games. The methods are the two mutators `add_player_to_game` and
  `remove_player_from_game`, `create_empty_sched` and `copy_sched`.
- **Selection helpers** (`selection.dfy`): `fun`, `inc_together`,
  `find_player`, `get_game`, `cnt_games`, both `get_player` overloads,
  `too_many_players`, `games_in_round`, `copy_games_in_round`,
  `remove_round`, and the filters and orders of `create_base_sched3`.
- **Construction** (`construction.dfy`, `construction2.dfy`):
  `create_base_sched` of HT15/VT15 (players to target, then games to
  size), the round-robin `create_base_sched` of 2014, and
  `create_base_sched2` with `move_player_to_game`, `rand_players`,
  `copy_players` and the trimming loop.
- **`compute_stats`** (`statistics.dfy`): the pair-count histogram,
  `min_together`, `min_games`/`max_games`, the minimum, median and
  maximum game score, the least leader count and the goalkeeper games.
- **`pct` and `compare`** (`ranking.dfy`), with each generation's rules.
- **`perm0` and `permutate`** (`perturbation.dfy`), with every failure
  exit and its `failed_swap` bucket.
- **The accept/reject loop of `main`** (`driver.dfy`).

`rand()`, `rand_bit`'s draw and the normal-distribution draws come in as
parameters (`draws`, `picks`, `Perturbation.Draws`), or as a choice among
the candidates the code has filtered. A failing `assert` and a division
by zero end the C++ program; an index past the end of a vector leaves its
behaviour undefined. The model reports each one it covers as an outcome of
its own: `Aborted` in the constructions, `NoGame`, `GamesModZero` and
`SwapModZero` in `perm0`, `NoPlayers`, `EmptyGame` and `NoGames` in
`compute_stats`, `DivByZero` and `PastEnd` in `compare`, and `None` for
the target of `create_base_sched`. The schedule stays valid. The
exceptions are listed under "Left out".

## Model

| member | source | states |
|---|---|---|
| CArith.CDivTruncates | HT15/schema.cc:1058-1061 | C's `/` truncates toward zero: the magnitude is the quotient of the magnitudes and the sign is the product of the signs |
| CArith.CRemIsRemainder | VT15/schema.cc:803-819 | C's `%` (the one `fun` uses) is the remainder of the truncating division, with the dividend's sign |
| CArith.CRemAddMultiple | VT15/schema.cc:803-819 | adding a multiple of the divisor to a non-negative dividend leaves the C remainder unchanged |
| Bits.SetBit | 2014/schema.cc:32-34 | `set_bit` sets bit `p`, keeps every other bit, and the result stays a 32-bit word |
| Bits.ClearBit | 2014/schema.cc:38-40 | `clear_bit` clears bit `p`, keeps every other bit, and the result stays a word |
| Bits.OrMask | HT15/schema.cc:63-66 | `or_mask`: a bit is set exactly when it is set in either operand |
| Bits.Minus | HT15/schema.cc:1205 | `mask & ~mask1`: a bit is set exactly when it is in `a` and not in `b` |
| Bits.SetBitsSpec | HT15/schema.cc:70-79 | a word is zero exactly when no bit is set, and the listed indices are exactly its set bits |
| Bits.RandBit | 2014/schema.cc:44-53 | `rand_bit` of a non-zero word returns an index whose bit is set, and the index is entry `draw % cnt` of the set bits in increasing order |
| Bits.CountBits | HT15/schema.cc:51-59 | `count_bits` returns the number of set bits of the word |
| Model.PlayersPerGame | HT15/schema.cc:26 | 7 players per game in HT15, 9 in 2014 and VT15 |
| Model.Weight | HT15/schema.cc:455-458 | the amount a player adds to each total; `ledare` is added raw in 2014 and as 0/1 in HT15 and VT15 |
| Model.GameScore | HT15/schema.cc:152-154 | the score `compute_stats` ranks a game by: C's `score / count_players` in HT15/VT15, the raw total in 2014 |
| Model.Blank | HT15/schema.cc:435-449 | `copy_game` keeps the round and the unavailability and starts with no players and zero totals |
| Model.JoinedOk | HT15/schema.cc:452-468 | adding a player that passes the game's assertions keeps the game's totals, list and mask consistent, and the player is then in the game |
| Model.LeftOk | HT15/schema.cc:481-491 | removing a player of the game keeps the game consistent, and exactly that player leaves |
| Model.JoinLeaveRoundTrip | HT15/schema.cc:452-501 | add then remove of the same player restores the game exactly: totals, players list and mask |
| Model.PairRoundTrip | HT15/schema.cc:474-500 | after add then remove, every pair cell is restored except the player's own diagonal cell, which stays 2 higher |
| Model.RemoveFirstMembers | HT15/schema.cc:488 | erasing `p` from a list without repetitions leaves exactly the other players |
| Schedule.JoinKeepsConsistent | HT15/schema.cc:460-477 | an add that passes the three assertions leaves the schedule consistent, and each pair count grows by the add loop's delta |
| Schedule.LeaveKeepsConsistent | HT15/schema.cc:489-500 | a remove that passes the assertions leaves the schedule consistent, and each pair count shrinks by the remove loop's delta |
| Schedule.ConsistentDetermined | HT15/schema.cc:185-205 | the round masks and `games_per_player` are determined by the games |
| Schedule.Sched.Symmetric | HT15/schema.cc:474-477 | in a valid schedule the pair matrix is symmetric off the diagonal |
| Schedule.Sched.Empty | HT15/schema.cc:414-432 | `create_empty_sched`: blank copies of the games, one empty mask per round, zero counts and a zero matrix; the result is valid |
| Schedule.Sched.Copy | HT15/schema.cc:504-528 | `copy_sched`: same games, masks, counts and off-diagonal pair counts; each diagonal cell is twice the player's games; fresh statistics |
| Schedule.Sched.AddPlayerToGame | HT15/schema.cc:452-478 | under the source's three assertions, the game, the round mask, `games_per_player` and every pair cell are updated as the source does, and validity is kept |
| Schedule.Sched.RemovePlayerFromGame | HT15/schema.cc:481-501 | for a player of the game, exactly the inverse updates, keeping validity |
| Schedule.CountPairs | HT15/schema.cc:474-477 | the pair loop changes cells `(pp,p)` and `(p,pp)` by one for each `pp` of the list and nothing else |
| Schedule.DiagonalDelta | HT15/schema.cc:474-477 | on the diagonal, only `p`'s cell moves, by two, because `p` is already on the list |
| Schedule.InGameBusy | HT15/schema.cc:470-471 | a player of a game is busy in the game's round |
| Schedule.SameGameMet | HT15/schema.cc:474-477 | two players of one game have a positive pair count |
| Selection.Fun | VT15/schema.cc:803-819 | `fun(no, range)` lies in `[0, range)` for `no >= 0`; it is `no` below `range` and `2*range-1-no` on the way back |
| Selection.FunPeriodic | VT15/schema.cc:803-819 | `fun` has period `2*range` |
| Selection.UnmetExtremes | HT15/schema.cc:780-788 | the never-met count is 0 exactly when the player has met every player of the game, and the game's size exactly when it has met none |
| Selection.IncTogether | HT15/schema.cc:780-788 | `inc_together` returns the number of the game's players the player has never played with |
| Selection.AvailablePositions | VT15/schema.cc:748-760 | the first loop of `find_player` lists, in order, exactly the positions of players the game does not mark unavailable |
| Selection.FindPlayer | VT15/schema.cc:748-777 | `-1` exactly when every player is unavailable; otherwise the first available position with the largest `inc_together` |
| Selection.GetGame | HT15/schema.cc:597-612 | `None` exactly when no game is eligible; otherwise the first eligible game with the fewest counted players |
| Selection.GetPlayerFor | VT15/schema.cc:577-590 | `None` exactly when nobody is eligible; otherwise the first eligible position with the smallest `games_per_player + lost_games` |
| Selection.GetPlayer | 2014/schema.cc:422-428 | `get_player(list)` returns the head and leaves the list rotated by one, with the same players |
| Selection.RotationsAre | 2014/schema.cc:422-428 | `k` calls leave `list[k..] + list[..k]`, and a full round of calls restores the list |
| Selection.TooManyPlayers | HT15/schema.cc:873-880 | true exactly when some game counts more than `limit` players |
| Selection.RoundIndicesMembers | VT15/schema.cc:204-211 | the game indices of a round are exactly its games, and there are `games_in_round` of them |
| Selection.RoundIndicesIncreasing | VT15/schema.cc:213-220 | in increasing order, as `copy_games_in_round` appends them |
| Selection.CopyGamesInRound | VT15/schema.cc:213-220 | `copy_games_in_round` appends the indices of the round's games, in order |
| Selection.OtherRoundsCount | VT15/schema.cc:222-229 | what `remove_round` keeps has no game of the round, and with the round's games it accounts for all games |
| Selection.OtherRoundsMembers | VT15/schema.cc:222-229 | `remove_round` keeps exactly the games of the other rounds |
| Selection.RemoveRound | VT15/schema.cc:222-229 | the loop of `remove_round` computes that list, in order |
| Selection.CountedPlayers | HT15/schema.cc:1004-1010 | `create_base_sched3` schedules exactly the players with `count_as > 0`, in roster order |
| Selection.EligibleInMembers | HT15/schema.cc:1018-1026 | the `possible` list holds exactly the players neither unavailable nor busy in the game's round |
| Selection.PossiblePlayers | HT15/schema.cc:1018-1026 | the loop builds that list |
| Selection.GameBeforeByBlocked | HT15/schema.cc:231-238 | `sort_games_by_available` does not depend on the never-assigned `count_players`: it orders by the blocked-player count |
| Selection.PlayerBeforeStrictWeak | HT15/schema.cc:979-986 | `sort_players_by_score` is irreflexive and transitive, and incomparability is a tie, as `std::sort` requires |
| Selection.GameBeforeStrictWeak | HT15/schema.cc:231-238 | the same for `sort_games_by_available` |
| Construction.Add | HT15/schema.cc:452-478 | an add of an eligible player keeps validity, only grows the schedule, and makes exactly that player busy in the round |
| Construction.TryAdd | HT15/schema.cc:460-470 | the player joins exactly when the assertions hold; otherwise nothing changes (the model's stand-in for the abort) |
| Construction.PerPlayerTarget | HT15/schema.cc:362-363 | `games_per_player = total / player_count` exists exactly when the counted player total is positive, and is then non-negative |
| Construction.SettledStays | HT15/schema.cc:744-751 | growing the schedule keeps a player settled: its count only rises and its eligibility only shrinks |
| Construction.FilledStays | HT15/schema.cc:753-760 | growing the schedule keeps a filled game filled |
| Construction.PlacePlayer | HT15/schema.cc:745-750 | the inner loop settles player `p`: it reaches the target or no game takes it; nobody else's counts or busy bits change |
| Construction.FillGame | HT15/schema.cc:754-759 | the inner loop fills game `gi`: it reaches `players_per_game` or nobody can join; no other game changes |
| Construction.PlaceAll | HT15/schema.cc:744-751 | the player loop leaves every player settled: each reaches `games_per_player` with its lost games, or no game of the schedule can take it; the schedule stays valid and only grows |
| Construction.FillAll | HT15/schema.cc:753-760 | the game loop leaves every game filled: it reaches `players_per_game` or nobody can join it; players settled before stay settled, and the schedule stays valid and only grows |
| Construction.CreateBaseSched | HT15/schema.cc:731-770 | HT15/VT15 `create_base_sched`: the target `total / cnt_players` fails exactly when the counted player total is not positive (VT15/schema.cc:699-700), and then nothing changes; otherwise every player is settled at that target and every game filled, and the result is valid; the closing `compute_stats` yields `Summary` exactly when there is a player and a game and no game is without counted players, and otherwise reports its fault with `stats` unchanged |
| Construction.Wrap64 | 2014/schema.cc:442-456 | `size_t` arithmetic wraps modulo 2^64 and is the identity on values that fit |
| Construction.RotIndex | 2014/schema.cc:422-428 | after `j` calls of `get_player` the list starts at player `j mod n`, in roster order |
| Construction.AlignedAt | 2014/schema.cc:445-457 | the forward pass adds to games `0..n-1` and the backward pass to `n-1..0`; that is `fun` of the add's number |
| Construction.DealingIndex | 2014/schema.cc:447-464 | add `j` takes player `j mod n`: the roster in turn |
| Construction.RouteIndex | 2014/schema.cc:443-458 | add `j` of the slot loop goes to game `fun(j, m)` |
| Construction.DealRounds | 2014/schema.cc:442-458 | the slot loop runs until the counter reaches `total`, with the adds following that pattern; it aborts only when the next add's assertions fail |
| Construction.DealExtra | 2014/schema.cc:460-468 | the extra loop adds the next rotated player to game `i` until `i` reaches `extra`; it aborts only when an index or an assertion fails |
| Construction.CreateBaseSched2014 | 2014/schema.cc:431-473 | 2014 `create_base_sched`: no players aborts; otherwise both loops, with the slot and extra patterns, on a valid schedule; a built schedule goes through `compute_stats`, which yields `Summary` exactly when there is a game |
| Construction2.RandPlayersRanked | HT15/schema.cc:822-836 | `rand_players` orders the list by score, then by draw, and is a permutation of it |
| Construction2.RandPlayersKeeps | HT15/schema.cc:830-836 | sorting keeps exactly the players of a list without repetitions, still without repetitions |
| Construction2.DropAt | HT15/schema.cc:772-778 | erasing position `i` leaves exactly the other players, without repetitions |
| Construction2.MovePlayerToGame | HT15/schema.cc:772-778 | `move_player_to_game`: the player joins the game as an add does and leaves the list |
| Construction2.FillGames | HT15/schema.cc:901-907 | the fill loop moves `find_player`'s pick into game `fun(i, size)` until the list is empty or nobody left may play; whoever left the list now plays in the round, and only the round's games change |
| Construction2.SameRoundOneGame | HT15/schema.cc:470 | a player is in at most one game of a round |
| Construction2.CopyPlayers | HT15/schema.cc:838-844 | HT15 adds every player of `src` that `dst` allows and skips the rest; VT15 adds them all, and an unavailable one fails the assertion (VT15/schema.cc:796-801) |
| Construction2.CopiedApart | HT15/schema.cc:916-918 | a player of a later game of the round is not a player of an earlier one, so each copy finds its players free in the next round |
| Construction2.CopyRound | HT15/schema.cc:916-918 | the copy loop gives game `cl[i]` the players of game `gl[i]`, and only the next round's busy bits change |
| Construction2.FillingCovered | HT15/schema.cc:901-907 | a fill loop over the whole roster that stopped leaves the round covered: every player plays in it or is unavailable for the game where it stopped |
| Construction2.SeedRound | HT15/schema.cc:894-899 | succeeds exactly when a player from position `round % N` on is available for the first game; that player joins it; otherwise nothing changes |
| Construction2.PlayRound | HT15/schema.cc:894-907 | seeding, `rand_players` and the fill loop leave the round covered, with the leftover players returned |
| Construction2.CopyPass | HT15/schema.cc:909-928 | a next round without games is skipped and nothing changes; one with fewer games than this round aborts, and otherwise only VT15 aborts; when built, its `j`-th game holds every player of this round's `j`-th game (HT15 skipping those it does not allow), and every leftover plays in it or is unavailable for the game where the fill stopped; this round's games and the other rounds' busy bits do not change |
| Construction2.CopyAndFill | HT15/schema.cc:916-927 | the copy into the next round's games, then the fill from the leftovers: when built, the copies hold and every leftover plays in the round or is unavailable for the game where the fill stopped; only HT15 never aborts |
| Construction2.CopyCovered | HT15/schema.cc:909-928 | a next round that got the copies and was filled from the leftovers of a covered round is covered: every player plays in it or is unavailable for one of its games |
| Construction2.PlayAndCopy | HT15/schema.cc:894-928 | a round with games: `PlayRound`, then the copy into the next round; a built round ends covered and, when the next round has games, that one is covered too and holds the copies of this round's games; the schedule stays valid and only grows, and only those two rounds change their busy bits |
| Construction2.RoundPass | HT15/schema.cc:887-928 | one pass of the round loop: a round without games is skipped and nothing changes; otherwise play, then copy, and a built pass leaves the round covered and a next round with games covered and holding the copies of this round's games |
| Construction2.PlayRounds | HT15/schema.cc:887-929 | a completed round loop leaves every played round with games covered, and every copied round after one |
| Construction2.TopGames | HT15/schema.cc:940-953 | exactly the over-full games of `p` with the highest `get_score`, in order; empty exactly when there is no over-full game of `p` |
| Construction2.TrimPass | HT15/schema.cc:935-959 | a pass removes `p` from one of its top games, unless `p` plays fewer than the target; every game keeps its round and only loses players, a game not over the limit is untouched, and no count drops below `target - 1` unless it already was |
| Construction2.Trim | HT15/schema.cc:934-960 | the trimming loop finishes exactly when no game counts more than `players_per_game`; an empty roster aborts; overall, only over-full games lose players and counts stay at least `target - 1` |
| Construction2.CreateBaseSched2 | HT15/schema.cc:883-964 | the round loop leaves every played round with games covered, and every copied round after one; the target is `total / player_count`; the trimming loop only takes players out of over-full games, from players at `target - 1` games or more, and is built exactly when no game is over-full; a built schedule is valid with a positive player count, and the closing `compute_stats` yields `Summary` exactly when it can run to its end |
| Statistics.MinFromBound | HT15/schema.cc:564-571 | the running minimum is a lower bound of every element |
| Statistics.MinFromAttained | HT15/schema.cc:564-571 | and is attained: the start value or an element |
| Statistics.MaxFromBound | HT15/schema.cc:565-573 | the running maximum is an upper bound |
| Statistics.MaxFromAttained | HT15/schema.cc:565-573 | and is attained |
| Statistics.SortAsc | HT15/schema.cc:579 | the sorted scores are ascending with the same elements |
| Statistics.MedianBetween | HT15/schema.cc:579-582 | `median_score = sorted[len/2]` lies between the minimum and the maximum score |
| Statistics.UpperMembers | HT15/schema.cc:540-549 | the loops visit exactly the cells above the diagonal |
| Statistics.FirstMinTogether | HT15/schema.cc:540-549 | the first entry appended to `min_together` is the count of pair (0,1) alone |
| Statistics.HistogramTotal | HT15/schema.cc:534-545 | with every value a valid index, the histogram counts every visited cell exactly once |
| Statistics.NoZeroBucket | HT15/schema.cc:534-545 | bucket 0 is empty exactly when every pair of players has played together |
| Statistics.MinGamesBound | HT15/schema.cc:551-557 | `min_games` is a lower bound of the counts it looks at (HT15 skips zero counts, VT15 does not) |
| Statistics.MinGamesAttained | VT15/schema.cc:503-538 | `min_games` is `INT_MAX` or some counted player's count |
| Statistics.TallyRow | HT15/schema.cc:542-549 | the inner loop bumps each cell's bucket and appends the running row minimum |
| Statistics.TallyPairs | HT15/schema.cc:540-560 | the pair loops yield the histogram, the appended minima and the per-variant least and most games over players `0..N-2` |
| Statistics.TallyGames | HT15/schema.cc:563-578 | the game loop yields the scores, their minimum and maximum, the least leader count and the goalkeeper games |
| Statistics.PairCountReach | HT15/schema.cc:535-544 | in a valid schedule a pair count is at most the number of games, and equals it exactly when the pair shares every game |
| Statistics.PairCountReached | HT15/schema.cc:535-544 | a valid schedule of one game holding players 0 and 1 has a pair count equal to `games.size()`, one past the last entry the source allocates |
| Statistics.PairCountsFit | HT15/schema.cc:535-544 | with one extra entry, every pair count of a valid schedule indexes the histogram |
| Statistics.PairHistogramTotal | HT15/schema.cc:534-545 | the corrected histogram of a valid schedule counts every visited pair exactly once |
| Statistics.Summarise | HT15/schema.cc:531-585 | the loops compute `Summary` |
| Statistics.ComputeStats | HT15/schema.cc:531-585 | `compute_stats` replaces `stats` by `Summary` of the schedule and changes nothing else; no players, a game without counted players (HT15/VT15, the division in `get_score`) and no games are each reported, exactly when they occur, with `stats` unchanged |
| Ranking.PctSelf | HT15/schema.cc:1058-1061 | `pct(v, v)` is 0 for non-zero `v` |
| Ranking.ScoreRules | HT15/schema.cc:1118-1145 | the score rules divide by zero only when a score of `s1` they read is zero, and read past the end only when a `cnt_games_together` is empty |
| Ranking.Thresholds | HT15/schema.cc:1064-1117 | the threshold rules decide with a value, or read past the end, and the latter only when a `min_together` or `cnt_games_together` is empty |
| Ranking.CompareWith | HT15/schema.cc:1064-1145 | `compare` reads past the end only when one of the two statistics has an empty `min_together` or `cnt_games_together` |
| Ranking.EmptyMinTogetherPastEnd | VT15/schema.cc:956-970 | an empty `min_together` of `s1` (a roster of one player) makes `compare` read past the end once the rules before it leave the schedules tied |
| Ranking.CompareSelf | VT15/schema.cc:929-997 | a schedule ranks equal to itself exactly when its minimum, median and maximum score are non-zero; otherwise `pct` divides by zero |
| Ranking.ThresholdsAntisymmetric | HT15/schema.cc:1064-1117 | with the goalkeeper rule corrected, swapping the schedules negates the threshold verdict |
| Ranking.GoalkeeperRuleOneSided | HT15/schema.cc:1114 | as written, the second goalkeeper rule compares `s2` with itself: fewer goalkeeper games loses only in one order |
| Ranking.MinGamesFirst | HT15/schema.cc:1068-1078 | HT15 ranks a schedule whose least-played player reaches the target above one whose player does not, in both orders |
| Ranking.VT15MinGamesDecides | VT15/schema.cc:940-942 | VT15 returns `s2.min_games - s1.min_games` whenever they differ |
| Ranking.Y2014IgnoresGames | 2014/schema.cc:482-535 | 2014 has no games-played rules: the verdict ignores `min_games`, `max_games` and the target |
| Ranking.Y2014NoTogetherRule | 2014/schema.cc:499-512 | 2014 has no rule on the size of the `min_together[0]` difference |
| Perturbation.PairCandidates | HT15/schema.cc:1152-1160 | the candidate mask holds exactly players of a never-met pair, and is 0 exactly when every pair has met |
| Perturbation.Partners | HT15/schema.cc:1166-1173 | the second mask holds exactly the players other than `p0` that never met `p0` |
| Perturbation.FindGame | HT15/schema.cc:1175-1183 | the cyclic scan returns the first game from `start` that holds `p`, and `None` exactly when no game does |
| Perturbation.SwapList | HT15/schema.cc:1216-1223 | `swap` holds, in order, exactly the candidates that count no more than `p1` and are available for `g1` (2014: all candidates) |
| Perturbation.MoveOne | HT15/schema.cc:1276-1279 | one exchange step moves `q` from `g0` to `g1` of another round; its game count is unchanged |
| Perturbation.MoveAll | HT15/schema.cc:1276-1279 | the exchange loop moves exactly the players of `ps` from `g0` to `g1`: `g1` lists them after its own players, the masks of the two games and of their two rounds change by exactly those players, and no other game or round changes |
| Perturbation.CountFailure | HT15/schema.cc:1212 | `failed_swap[b]++`: only bucket `b` grows, by one; 2014 keeps no buckets |
| Perturbation.ChoosePair | HT15/schema.cc:1152-1197 | no pair exactly when every pair has met; otherwise a schedule without games divides by zero in `rand() % s->games.size()`, and else `p0 != p1` never met; `NoGame` only when one of them plays no game |
| Perturbation.Exchange | HT15/schema.cc:1276-1284 | the exchange moves exactly `p2` from `g0` to `g1` and `p1` from `g1` to `g0`: no other game or round changes, the masks of the two games and of their rounds change by exactly those players, `p0` and `p1` share `g0` with a positive pair count, and `games_per_player` is unchanged |
| Perturbation.PickedFree | HT15/schema.cc:1201-1256 | the players picked from `swap` are players of `g0` other than `p0`, available for and free in `g1`'s round, so bucket 2 can never be counted |
| Perturbation.PickSwap | HT15/schema.cc:1228-1253 | the `do .. while` picks distinct players of `swap`: `count_as` of them, one in 2014, and for a zero count at most one, none after a negative first draw |
| Perturbation.SelectSwap | HT15/schema.cc:1201-1253 | bucket 0 exactly when no player of `g0` but `p0` is free in `g1`'s round; bucket 1 when `swap` is too short; `rand() % cnt` divides by zero exactly when `p1` counts zero, `swap` is empty and the first draw is not negative; otherwise the picks of `PickSwap` |
| Perturbation.Finish | HT15/schema.cc:1258-1284 | bucket 3 when `p1` is busy in `g0`'s round and bucket 4 (not in 2014) when it is unavailable for `g0`, each leaving the schedule unchanged; otherwise the exchange and, outside 2014, `swaps++` |
| Perturbation.Attempt | HT15/schema.cc:1201-1284 | after `p0`, `p1`, `g0` and `g1` are drawn: a failure counts one bucket out of 0, 1, 3, 4 and changes nothing else; the division by zero of `rand() % cnt` changes nothing; a swap is the exchange of `p1` with the picked players, which makes `p0` and `p1` meet and counts one swap |
| Perturbation.Perm0 | HT15/schema.cc:1150-1287 | false exactly for no pair, no game or one of the two divisions by zero; every exit before the exchange leaves the schedule unchanged, and the failures count one bucket out of 0, 1, 3, 4; a swap moves exactly the picked players of `g0` and `p1` of `g1`, changes no other game or round, makes `p0` and `p1` meet, keeps `games_per_player` and counts one swap |
| Perturbation.Permutate | HT15/schema.cc:1290-1296 | up to 100 calls, stopping at the first false, which is no pair, no game or a division by zero in `perm0`; stopping on no pair means every pair has met; the schedule stays valid and `games_per_player` is unchanged |
| Driver.MoveFor | HT15/schema.cc:1318-1334 | `streak % 4` 0 perturbs the current schedule, 1 the base one, 2 and 3 build a fresh one; 2014 always perturbs |
| Driver.StreakLimit | HT15/schema.cc:1315 | the streak bound: 500000, or 100000 in 2014 |
| Driver.CurrentIsLastAccepted | HT15/schema.cc:1336-1348 | the current schedule is the last candidate with a positive result, and no later result was positive |
| Driver.WinsAreTrailingTies | HT15/schema.cc:1336-1348 | `wins` counts the trailing zero results |
| Driver.Run | HT15/schema.cc:1315-1365 | the loop keeps `wins`, `streak` and the current schedule as those functions say, and stops only at one of its bounds |
| Driver.FreshAfterAccept | VT15/schema.cc:1164-1197 | after an accepted candidate the next iteration of HT15/VT15 builds a fresh schedule |

## Left out

- File parsing (`read_players`, `read_games`), `print_sched`, progress output, signal handling and clock seeding are I/O. The roster and games are constructor parameters, and the `stopnow` flag is the end of the results sequence `Driver.Run` reads.
- `rand()`, `rand_bit`'s draw and the normal-distribution draws are parameters. The `do .. while` picks of `perm0` and `create_base_sched3` are a choice among the filtered candidates. Their termination is not modelled.
- Perturbation.PickSwap: only the first normal draw of the `do .. while` is a parameter (`dist`), because it alone decides whether `rand() % cnt` runs on a zero `count_as`. The later draws, the rotation `pos` and the score-distance test `abs(p->score - p1->score) <= dist` are not modelled; the picks are any distinct candidates of the right number.
- The worklist loop of `create_base_sched3` is not modelled; its candidate filter and the two sort orders are.
- The raw memory handling of `Matrix` and the leaked objects: the pair matrix is a Dafny `array2`.
- Construction.DealRounds, Construction.DealExtra, Construction.CreateBaseSched2014 and Construction2.Trim carry a `fuel` bound on their loops and report `OutOfFuel` when it runs out. The trimming loop of `create_base_sched2` need not terminate.
- Construction.Wrap64: only the `size_t` slot counter of 2014 wraps. Other `int` overflow (the 32-bit totals, `1 << 31`) is not modelled; masks are words below 2^32.
- Statistics.ComputeStats gives `cnt_games_together` one entry per possible pair count, `games.size() + 1`, where the source allocates `games.size()`. On every input the model's histogram is one entry longer than the program's. A pair that shares every game (`Statistics.PairCountReached`) makes the source write past the end, which the model does not report.
- Construction2.CopyPass aborts when the next round has fewer games than this one. The source then indexes past `copy_games`.
- Construction2.RandPlayers breaks ties by insertion order. `std::sort` leaves equal elements in an unspecified order.
- Construction.PerPlayerTarget treats a non-positive counted player total as `Aborted`. The source divides by it.
- Construction.CreateBaseSched and Construction2.CreateBaseSched2 assume a schedule on which nobody plays yet, as `copy_sched(&empty_sched)` gives; they do not model that copy.
- Perturbation.Perm0: VT15 and 2014 dereference a null `g0`/`g1`, which `NoGame` stands for.
- `count_available` and `Sched::count_players` are never assigned in HT15; only the order they give is modelled, by `Selection.GameBeforeByBlocked`.

## Findings

| source | as written | input that shows it | evidently intended | confidence | as-written member | corrected member |
|---|---|---|---|---|---|---|
| HT15/schema.cc:1114 | the second goalkeeper rule compares `s2->stats.cnt_goalkeeper` with itself, so it never fires (also VT15/schema.cc:966, 2014/schema.cc:509) | two schedules equal except that `s2` has more goalkeeper games: `compare(s1, s2)` is 0 while `compare(s2, s1)` is -1 | `s1->stats.cnt_goalkeeper < s2->stats.cnt_goalkeeper`, making the threshold rules antisymmetric | high, not executed | Ranking.GoalkeeperRuleOneSided | Ranking.ThresholdsAntisymmetric |
| HT15/schema.cc:535-544 | `cnt_games_together` gets one entry per game, but a pair count can equal the number of games (same in VT15 and 2014) | two players placed together in every game, e.g. a schedule of one game holding players 0 and 1: `val == games.size()` indexes past the end | one entry per possible count, `games.size() + 1` | medium, not executed | Statistics.PairCountReached | Statistics.PairCountsFit |
