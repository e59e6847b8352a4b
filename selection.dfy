/** The deterministic selection helpers of the construction heuristics:
    `fun`, `inc_together`, `find_player`, `get_game`, `cnt_games`,
    `get_player` (both overloads), `too_many_players`, the round-list
    helpers of VT15 and the filters and orders of `create_base_sched3`. */
module Selection {
  import opened CArith
  import opened Bits
  import opened Model
  import opened Schedule

  /* ---------------------------------------------------------------- fun */

  /** `fun(no, range)`: a ping-pong index 0, 1, .., range-1, range-1, .., 0,
      0, 1, .. for `no` = 0, 1, ..; `%` is C's, so a negative `no` yields a
      value at or below zero. */
  function Fun(no: int, range: int): (r: int)
    requires range > 0
    ensures no >= 0 ==> 0 <= r < range
    ensures 0 <= no < range ==> r == no
    ensures range <= no < 2 * range ==> r == 2 * range - 1 - no
    ensures no < 0 ==> -2 * range < r <= 0
  {
    var n := CRem(no, 2 * range);
    if n < range then n else (range - 1) - CRem(n, range)
  }

  /** `fun` repeats with period `2 * range` on the non-negative numbers. */
  lemma FunPeriodic(no: int, range: int)
    requires range > 0 && no >= 0
    ensures Fun(no + 2 * range, range) == Fun(no, range)
  {
    CRemShift(no, 2 * range);
  }

  /* ------------------------------------------------------- inc_together */

  predicate InMatrix(m: array2<int>, ps: seq<nat>)
  {
    forall i | 0 <= i < |ps| :: ps[i] < m.Length0
  }

  /** The number of players of `ps` that `q` has never played with. */
  function Unmet(m: array2<int>, ps: seq<nat>, q: nat): (r: nat)
    reads m
    requires q < m.Length1 && InMatrix(m, ps)
    ensures r <= |ps|
  {
    if ps == [] then 0
    else Unmet(m, ps[..|ps| - 1], q) + (if m[ps[|ps| - 1], q] == 0 then 1 else 0)
  }

  /** `Unmet` is zero exactly when `q` has met every player of `ps`, and
      `|ps|` exactly when it has met none. */
  lemma {:induction false} UnmetExtremes(m: array2<int>, ps: seq<nat>, q: nat)
    requires q < m.Length1 && InMatrix(m, ps)
    ensures Unmet(m, ps, q) == 0 <==> forall i | 0 <= i < |ps| :: m[ps[i], q] != 0
    ensures Unmet(m, ps, q) == |ps| <==> forall i | 0 <= i < |ps| :: m[ps[i], q] == 0
  {
    if ps != [] {
      var init := ps[..|ps| - 1];
      UnmetExtremes(m, init, q);
      assert forall i | 0 <= i < |init| :: init[i] == ps[i];
    }
  }

  /** `inc_together(s, game, player)`: how many of the game's players have
      never played with `q`, by the pair matrix. */
  method IncTogether(s: Sched, gi: nat, q: nat) returns (cnt: int)
    requires gi < |s.games| && q < s.together.Length1 && InMatrix(s.together, s.games[gi].players)
    ensures cnt == Unmet(s.together, s.games[gi].players, q)
  {
    cnt := 0;
    var ps := s.games[gi].players;
    for k := 0 to |ps|
      invariant cnt == Unmet(s.together, ps[..k], q)
    {
      PrefixSnoc(ps, k);
      assert ps[..k + 1][..k] == ps[..k];
      if s.together[ps[k], q] == 0 {
        cnt := cnt + 1;
      }
    }
    assert ps[..|ps|] == ps;
  }

  /* -------------------------------------------------------- find_player */

  /** How many new pairs `q` would make in game `gi`. */
  function Inc(s: Sched, gi: nat, q: nat): nat
    reads s, s.together
    requires gi < |s.games| && q < s.together.Length1 && InMatrix(s.together, s.games[gi].players)
  {
    Unmet(s.together, s.games[gi].players, q)
  }

  /** The first loop of `find_player`: the positions in `players` of the
      players the game does not mark unavailable, in increasing order. */
  method AvailablePositions(unavailable: nat, players: seq<nat>) returns (f: seq<nat>)
    ensures forall t | 0 <= t < |f| :: f[t] < |players| && !TestBit(unavailable, players[f[t]])
    ensures forall t, u | 0 <= t < u < |f| :: f[t] < f[u]
    ensures forall j | 0 <= j < |players| && !TestBit(unavailable, players[j]) :: j in f
  {
    f := [];
    for i := 0 to |players|
      invariant forall t | 0 <= t < |f| :: f[t] < i && !TestBit(unavailable, players[f[t]])
      invariant forall t, u | 0 <= t < u < |f| :: f[t] < f[u]
      invariant forall j | 0 <= j < i && !TestBit(unavailable, players[j]) :: j in f
    {
      if TestBit(unavailable, players[i]) {
        continue;
      }
      f := f + [i];
    }
  }

  /** `find_player(s, game, players)`: the first position in `players`, among
      the players available for the game, whose `inc_together` is largest;
      -1 exactly when every player is unavailable. */
  method FindPlayer(s: Sched, gi: nat, players: seq<nat>) returns (r: int)
    requires gi < |s.games| && InMatrix(s.together, s.games[gi].players)
    requires forall j | 0 <= j < |players| :: players[j] < s.together.Length1
    ensures r == -1 <==> forall j | 0 <= j < |players| :: TestBit(s.games[gi].unavailable, players[j])
    ensures r != -1 ==> 0 <= r < |players| && !TestBit(s.games[gi].unavailable, players[r])
    ensures r != -1 ==>
              forall j | 0 <= j < |players| && !TestBit(s.games[gi].unavailable, players[j]) ::
                Inc(s, gi, players[j]) <= Inc(s, gi, players[r])
                && (j < r ==> Inc(s, gi, players[j]) < Inc(s, gi, players[r]))
  {
    var unavailable := s.games[gi].unavailable;
    var f := AvailablePositions(unavailable, players);
    var maxInc := 0;
    var filter2: seq<nat> := [];
    ghost var first: nat := 0;
    for t := 0 to |f|
      invariant forall u | 0 <= u < t :: Inc(s, gi, players[f[u]]) <= maxInc
      invariant t == 0 ==> filter2 == [] && maxInc == 0
      invariant t > 0 ==> |filter2| > 0 && first < t && filter2[0] == f[first]
                          && Inc(s, gi, players[f[first]]) == maxInc
                          && forall u | 0 <= u < first :: Inc(s, gi, players[f[u]]) < maxInc
    {
      var pi := f[t];
      var inc := IncTogether(s, gi, players[pi]);
      if inc > maxInc {
        filter2 := [pi];
        maxInc := inc;
        first := t;
      } else if inc == maxInc {
        if t == 0 {
          first := 0;
        }
        filter2 := filter2 + [pi];
      }
    }
    if |filter2| == 0 {
      return -1;
    }
    r := filter2[0];
    forall j | 0 <= j < |players| && !TestBit(unavailable, players[j])
      ensures Inc(s, gi, players[j]) <= Inc(s, gi, players[r])
      ensures j < r ==> Inc(s, gi, players[j]) < Inc(s, gi, players[r])
    {
      var u :| 0 <= u < |f| && f[u] == j;
      if j < r {
        assert u < first;
      }
    }
  }

  /* ----------------------------------------- get_game, get_player(s, ..) */

  /** Every game's round has a mask. */
  predicate RoundsExist(games: seq<Game>, roundMask: seq<nat>)
  {
    forall k | 0 <= k < |games| :: games[k].round < |roundMask|
  }

  /** Player `q` may join game `g`: it plays no game of the round and the
      game does not mark it unavailable. */
  predicate Eligible(roundMask: seq<nat>, g: Game, q: nat)
    requires g.round < |roundMask|
  {
    !TestBit(roundMask[g.round], q) && !TestBit(g.unavailable, q)
  }

  /** `get_game(s, p)`: the first game, among those `p` is eligible for,
      with the fewest players counted; `None` exactly when there is none. */
  method GetGame(s: Sched, p: nat) returns (r: Option<nat>)
    requires RoundsExist(s.games, s.roundMask)
    ensures r.None? <==> forall k | 0 <= k < |s.games| :: !Eligible(s.roundMask, s.games[k], p)
    ensures r.Some? ==> r.value < |s.games| && Eligible(s.roundMask, s.games[r.value], p)
    ensures r.Some? ==>
              forall k | 0 <= k < |s.games| && Eligible(s.roundMask, s.games[k], p) ::
                s.games[r.value].count <= s.games[k].count
                && (k < r.value ==> s.games[r.value].count < s.games[k].count)
  {
    r := None;
    for i := 0 to |s.games|
      invariant r.None? <==> forall k | 0 <= k < i :: !Eligible(s.roundMask, s.games[k], p)
      invariant r.Some? ==> r.value < i && Eligible(s.roundMask, s.games[r.value], p)
      invariant r.Some? ==>
                  forall k | 0 <= k < i && Eligible(s.roundMask, s.games[k], p) ::
                    s.games[r.value].count <= s.games[k].count
                    && (k < r.value ==> s.games[r.value].count < s.games[k].count)
    {
      var g := s.games[i];
      if TestBit(s.roundMask[g.round], p) {
        continue;
      }
      if TestBit(g.unavailable, p) {
        continue;
      }
      if r.None? || g.count < s.games[r.value].count {
        r := Some(i);
      }
    }
  }

  /** `cnt_games(s, p)`: the games `q` plays here plus those it has lost. */
  function CntGames(s: Sched, q: nat): int
    reads s
    requires q < |s.gamesPerPlayer| && q < |s.roster|
  {
    s.gamesPerPlayer[q] + s.roster[q].lostGames
  }

  predicate InRange(s: Sched, players: seq<nat>)
    reads s
  {
    forall j | 0 <= j < |players| :: players[j] < |s.gamesPerPlayer| && players[j] < |s.roster|
  }

  /** `get_player(s, players, g)`: the first position in `players`, among
      the players eligible for game `gi`, whose `cnt_games` is smallest;
      `None` exactly when no player is eligible. */
  method GetPlayerFor(s: Sched, players: seq<nat>, gi: nat) returns (r: Option<nat>)
    requires gi < |s.games| && s.games[gi].round < |s.roundMask| && InRange(s, players)
    ensures r.None? <==> forall j | 0 <= j < |players| :: !Eligible(s.roundMask, s.games[gi], players[j])
    ensures r.Some? ==> r.value < |players| && Eligible(s.roundMask, s.games[gi], players[r.value])
    ensures r.Some? ==>
              forall j | 0 <= j < |players| && Eligible(s.roundMask, s.games[gi], players[j]) ::
                CntGames(s, players[r.value]) <= CntGames(s, players[j])
                && (j < r.value ==> CntGames(s, players[r.value]) < CntGames(s, players[j]))
  {
    var g := s.games[gi];
    r := None;
    for i := 0 to |players|
      invariant r.None? <==> forall j | 0 <= j < i :: !Eligible(s.roundMask, g, players[j])
      invariant r.Some? ==> r.value < i && Eligible(s.roundMask, g, players[r.value])
      invariant r.Some? ==>
                  forall j | 0 <= j < i && Eligible(s.roundMask, g, players[j]) ::
                    CntGames(s, players[r.value]) <= CntGames(s, players[j])
                    && (j < r.value ==> CntGames(s, players[r.value]) < CntGames(s, players[j]))
    {
      var q := players[i];
      if TestBit(s.roundMask[g.round], q) {
        continue;
      }
      if TestBit(g.unavailable, q) {
        continue;
      }
      if r.None? || CntGames(s, q) < CntGames(s, players[r.value]) {
        r := Some(i);
      }
    }
  }

  /* ------------------------------------------------ get_player(list) */

  /** `k` successive rotations of a list. */
  function Rotations(list: seq<nat>, k: nat): (r: seq<nat>)
    requires |list| > 0
    ensures |r| == |list|
  {
    if k == 0 then list
    else
      var l := Rotations(list, k - 1);
      l[1..] + [l[0]]
  }

  /** `get_player(list)`: takes the head and moves it to the back, so the
      list keeps its players and its length. */
  method GetPlayer(list: seq<nat>) returns (p: nat, list': seq<nat>)
    requires |list| > 0
    ensures p == list[0] && list' == Rotations(list, 1)
    ensures multiset(list') == multiset(list)
  {
    p := list[0];
    list' := list[1..];
    list' := list' + [p];
    assert list == [list[0]] + list[1..];
  }

  /** After `k` calls, `k` at most the length, the list is rotated by `k`
      places: the calls hand out the players in list order, and a full
      round of calls restores the list. */
  lemma {:induction false} RotationsAre(list: seq<nat>, k: nat)
    requires 0 < |list| && k <= |list|
    ensures Rotations(list, k) == list[k..] + list[..k]
    ensures k == |list| ==> Rotations(list, k) == list
  {
    if k > 0 {
      RotationsAre(list, k - 1);
      RotateSplit(list, k - 1);
    }
    if k == |list| {
      assert list[k..] == [] && list[..k] == list;
    }
  }

  /** Moving the head of `list[j..] + list[..j]` to the back splits the
      list one place further on. */
  lemma RotateSplit(list: seq<nat>, j: nat)
    requires j < |list|
    ensures var l := list[j..] + list[..j]; l[1..] + [l[0]] == list[j + 1..] + list[..j + 1]
  {
    var l := list[j..] + list[..j];
    assert l[0] == list[j];
    assert l[1..] == list[j + 1..] + list[..j];
    assert list[..j + 1] == list[..j] + [list[j]];
  }

  /* ------------------------------------------------ too_many_players */

  /** `too_many_players(games, limit)`: some game counts more than `limit`
      players. */
  method TooManyPlayers(games: seq<Game>, limit: int) returns (b: bool)
    ensures b <==> exists k | 0 <= k < |games| :: games[k].count > limit
  {
    for i := 0 to |games|
      invariant forall k | 0 <= k < i :: games[k].count <= limit
    {
      if games[i].count > limit {
        return true;
      }
    }
    return false;
  }

  /* ----------------------------------------- round lists of games (VT15) */

  /** `games_in_round(games, round)`: how many games belong to `round`. */
  function GamesInRound(games: seq<Game>, round: int): (r: nat)
    ensures r <= |games|
  {
    if games == [] then 0
    else GamesInRound(games[..|games| - 1], round) + (if games[|games| - 1].round == round then 1 else 0)
  }

  /** The positions of the games of `round`, in order. */
  function RoundIndices(games: seq<Game>, round: int): (r: seq<nat>)
  {
    if games == [] then []
    else RoundIndices(games[..|games| - 1], round) + (if games[|games| - 1].round == round then [|games| - 1] else [])
  }

  /** `RoundIndices` lists exactly the games of the round, and there are
      `games_in_round` of them ... */
  lemma {:induction false} RoundIndicesMembers(games: seq<Game>, round: int)
    ensures |RoundIndices(games, round)| == GamesInRound(games, round)
    ensures forall k: nat :: k in RoundIndices(games, round) <==> k < |games| && games[k].round == round
  {
    if games != [] {
      var init := games[..|games| - 1];
      RoundIndicesMembers(init, round);
      assert forall k | 0 <= k < |init| :: init[k] == games[k];
    }
  }

  /** ... in increasing order. */
  lemma {:induction false} RoundIndicesIncreasing(games: seq<Game>, round: int)
    ensures forall t, u | 0 <= t < u < |RoundIndices(games, round)| :: RoundIndices(games, round)[t] < RoundIndices(games, round)[u]
  {
    if games != [] {
      var init := games[..|games| - 1];
      RoundIndicesIncreasing(init, round);
      RoundIndicesMembers(init, round);
      var ri := RoundIndices(init, round);
      forall t | 0 <= t < |ri|
        ensures ri[t] < |init|
      {
        assert ri[t] in ri;
      }
    }
  }

  /** `RoundIndices` depends only on the games' rounds. */
  lemma {:induction false} RoundIndicesSameRounds(games: seq<Game>, games': seq<Game>, round: int)
    requires |games'| == |games| && forall k | 0 <= k < |games| :: games'[k].round == games[k].round
    ensures RoundIndices(games', round) == RoundIndices(games, round)
  {
    if games != [] {
      RoundIndicesSameRounds(games[..|games| - 1], games'[..|games| - 1], round);
    }
  }

  /** `copy_games_in_round(dst, games, round)`: appends the games of `round`
      to `dst`, in order (a game is named by its position in `games`). */
  method CopyGamesInRound(dst: seq<nat>, games: seq<Game>, round: int) returns (dst': seq<nat>)
    ensures dst' == dst + RoundIndices(games, round)
  {
    dst' := dst;
    for i := 0 to |games|
      invariant dst' == dst + RoundIndices(games[..i], round)
    {
      PrefixSnoc(games, i);
      assert games[..i + 1][..i] == games[..i];
      if games[i].round == round {
        dst' := dst' + [i];
      }
    }
    assert games[..|games|] == games;
  }

  /** The games not in `round`, in order. */
  function OtherRounds(games: seq<Game>, round: int): (r: seq<Game>)
  {
    if games == [] then []
    else OtherRounds(games[..|games| - 1], round) + (if games[|games| - 1].round != round then [games[|games| - 1]] else [])
  }

  /** `remove_round` splits the games: what is left has no game of the
      round and, with the round's games, accounts for all of them ... */
  lemma {:induction false} OtherRoundsCount(games: seq<Game>, round: int)
    ensures GamesInRound(OtherRounds(games, round), round) == 0
    ensures |OtherRounds(games, round)| + GamesInRound(games, round) == |games|
  {
    if games != [] {
      var init := games[..|games| - 1];
      OtherRoundsCount(init, round);
      var rest := OtherRounds(init, round);
      var last := games[|games| - 1];
      if last.round != round {
        var o := rest + [last];
        assert OtherRounds(games, round) == o;
        assert o[..|o| - 1] == rest;
        assert GamesInRound(o, round) == GamesInRound(rest, round);
      } else {
        assert OtherRounds(games, round) == rest;
      }
    }
  }

  /** ... and it holds exactly the games of the other rounds. */
  lemma {:induction false} OtherRoundsMembers(games: seq<Game>, round: int)
    ensures forall g :: g in OtherRounds(games, round) <==> g in games && g.round != round
  {
    if games != [] {
      var init := games[..|games| - 1];
      OtherRoundsMembers(init, round);
      assert games == init + [games[|games| - 1]];
    }
  }

  /** `remove_round(games, round)`: keeps the games of the other rounds, in
      order. */
  method RemoveRound(games: seq<Game>, round: int) returns (games': seq<Game>)
    ensures games' == OtherRounds(games, round)
  {
    var copy: seq<Game> := [];
    for i := 0 to |games|
      invariant copy == OtherRounds(games[..i], round)
    {
      PrefixSnoc(games, i);
      assert games[..i + 1][..i] == games[..i];
      if games[i].round != round {
        copy := copy + [games[i]];
      }
    }
    assert games[..|games|] == games;
    games' := copy;
  }

  /* ------------------------------ filters and orders of create_base_sched3 */

  /** The players `create_base_sched3` schedules: those that count. */
  method CountedPlayers(roster: seq<Player>) returns (players: seq<nat>)
    ensures forall q: nat :: q in players <==> q < |roster| && roster[q].countAs > 0
    ensures forall t, u | 0 <= t < u < |players| :: players[t] < players[u]
  {
    players := [];
    for q := 0 to |roster|
      invariant forall x: nat :: x in players <==> x < q && roster[x].countAs > 0
      invariant forall t, u | 0 <= t < u < |players| :: players[t] < players[u]
      invariant forall t | 0 <= t < |players| :: players[t] < q
    {
      if roster[q].countAs > 0 {
        players := players + [q];
      }
    }
  }

  /** The players of `players` eligible for `g`, in order. */
  function EligibleIn(roundMask: seq<nat>, g: Game, players: seq<nat>): (r: seq<nat>)
    requires g.round < |roundMask|
  {
    if players == [] then []
    else
      var q := players[|players| - 1];
      EligibleIn(roundMask, g, players[..|players| - 1]) + (if Eligible(roundMask, g, q) then [q] else [])
  }

  /** `EligibleIn` keeps exactly the eligible players. */
  lemma {:induction false} EligibleInMembers(roundMask: seq<nat>, g: Game, players: seq<nat>)
    requires g.round < |roundMask|
    ensures forall q :: q in EligibleIn(roundMask, g, players) <==> q in players && Eligible(roundMask, g, q)
    ensures |EligibleIn(roundMask, g, players)| <= |players|
  {
    if players != [] {
      var init := players[..|players| - 1];
      EligibleInMembers(roundMask, g, init);
      assert players == init + [players[|players| - 1]];
    }
  }

  /** The `possible` list of `create_base_sched3` for game `gi`: the players
      neither unavailable nor busy in the game's round. */
  method PossiblePlayers(s: Sched, gi: nat, players: seq<nat>) returns (possible: seq<nat>)
    requires gi < |s.games| && s.games[gi].round < |s.roundMask|
    ensures possible == EligibleIn(s.roundMask, s.games[gi], players)
  {
    var g := s.games[gi];
    possible := [];
    for i := 0 to |players|
      invariant possible == EligibleIn(s.roundMask, g, players[..i])
    {
      PrefixSnoc(players, i);
      assert players[..i + 1][..i] == players[..i];
      var q := players[i];
      if TestBit(g.unavailable, q) {
        continue;
      }
      if TestBit(s.roundMask[g.round], q) {
        continue;
      }
      possible := possible + [q];
    }
    assert players[..|players|] == players;
  }

  /** The players-masked-out count of a game: players in it, unavailable
      for it or busy in its round. */
  function Blocked(roundMask: seq<nat>, g: Game): nat
    requires g.round < |roundMask|
  {
    |SetBits(OrMask(OrMask(g.mask, g.unavailable), roundMask[g.round]))|
  }

  /** `sort_games_by_available`: fewer available players first, then fewer
      players counted.  `countPlayers` is `Sched::count_players`, which
      the program never assigns. */
  predicate GameBefore(countPlayers: int, roundMask: seq<nat>, g1: Game, g2: Game)
    requires g1.round < |roundMask| && g2.round < |roundMask|
  {
    var c1 := countPlayers - Blocked(roundMask, g1);
    var c2 := countPlayers - Blocked(roundMask, g2);
    if c1 == c2 then g1.count < g2.count else c1 < c2
  }

  /** The order does not depend on the unassigned `count_players`: it puts
      the games with the most blocked players first, then the games with
      the fewest players counted. */
  lemma GameBeforeByBlocked(countPlayers: int, roundMask: seq<nat>, g1: Game, g2: Game)
    requires g1.round < |roundMask| && g2.round < |roundMask|
    ensures GameBefore(countPlayers, roundMask, g1, g2)
            <==> Blocked(roundMask, g1) > Blocked(roundMask, g2)
                 || (Blocked(roundMask, g1) == Blocked(roundMask, g2) && g1.count < g2.count)
  {
  }

  /** `sort_players_by_score`: fewer games (played plus lost) first, then
      higher score. */
  predicate PlayerBefore(roster: seq<Player>, gpp: seq<int>, p1: nat, p2: nat)
    requires p1 < |roster| && p1 < |gpp| && p2 < |roster| && p2 < |gpp|
  {
    var c1 := roster[p1].lostGames + gpp[p1];
    var c2 := roster[p2].lostGames + gpp[p2];
    if c1 != c2 then c1 < c2 else roster[p1].score > roster[p2].score
  }

  /** Both comparators are strict weak orders, as `std::sort` requires:
      irreflexive, transitive, and two elements are unordered exactly when
      they tie on both keys. */
  lemma PlayerBeforeStrictWeak(roster: seq<Player>, gpp: seq<int>, p1: nat, p2: nat, p3: nat)
    requires p1 < |roster| && p1 < |gpp| && p2 < |roster| && p2 < |gpp| && p3 < |roster| && p3 < |gpp|
    ensures !PlayerBefore(roster, gpp, p1, p1)
    ensures PlayerBefore(roster, gpp, p1, p2) && PlayerBefore(roster, gpp, p2, p3) ==> PlayerBefore(roster, gpp, p1, p3)
    ensures !PlayerBefore(roster, gpp, p1, p2) && !PlayerBefore(roster, gpp, p2, p1)
            <==> roster[p1].lostGames + gpp[p1] == roster[p2].lostGames + gpp[p2] && roster[p1].score == roster[p2].score
  {
  }

  lemma GameBeforeStrictWeak(countPlayers: int, roundMask: seq<nat>, g1: Game, g2: Game, g3: Game)
    requires g1.round < |roundMask| && g2.round < |roundMask| && g3.round < |roundMask|
    ensures !GameBefore(countPlayers, roundMask, g1, g1)
    ensures GameBefore(countPlayers, roundMask, g1, g2) && GameBefore(countPlayers, roundMask, g2, g3)
            ==> GameBefore(countPlayers, roundMask, g1, g3)
    ensures !GameBefore(countPlayers, roundMask, g1, g2) && !GameBefore(countPlayers, roundMask, g2, g1)
            <==> Blocked(roundMask, g1) == Blocked(roundMask, g2) && g1.count == g2.count
  {
  }
}
