/** `create_base_sched2` of HT15 and VT15: every second round is filled
    game by game from a score-ordered player list, copied into the round
    after it and topped up there, and the games left with more than
    `players_per_game` counted players are trimmed.  As in `Construction`,
    a failing `assert`, an index past the end of a vector or a division by
    zero is reported as `Aborted`. */
module Construction2 {
  import opened Bits
  import opened Model
  import opened Schedule
  import opened Selection
  import opened Construction
  import opened Statistics

  /* ------------------------------------------------------- rand_players */

  /** The number `rand_players` draws for player `q` (0 beyond the draws). */
  function Draw(draws: seq<int>, q: nat): int
  {
    if q < |draws| then draws[q] else 0
  }

  /** The score of player `q` (0 beyond the roster). */
  function ScoreOf(roster: seq<Player>, q: nat): int
  {
    if q < |roster| then roster[q].score else 0
  }

  /** `sort_by_score_rand`: `a` goes first when its score is higher, or
      equal with a higher draw. */
  predicate RanksBefore(roster: seq<Player>, draws: seq<int>, a: nat, b: nat)
  {
    || ScoreOf(roster, a) > ScoreOf(roster, b)
    || (ScoreOf(roster, a) == ScoreOf(roster, b) && Draw(draws, a) > Draw(draws, b))
  }

  /** No player of `ps` ranks before one listed ahead of it. */
  predicate Ranked(roster: seq<Player>, draws: seq<int>, ps: seq<nat>)
  {
    forall i, j | 0 <= i < j < |ps| :: !RanksBefore(roster, draws, ps[j], ps[i])
  }

  /** `x` placed in front of the first player of `xs` that does not rank
      before it. */
  function InsertRanked(roster: seq<Player>, draws: seq<int>, x: nat, xs: seq<nat>): (r: seq<nat>)
    ensures multiset(r) == multiset(xs) + multiset{x}
  {
    if xs == [] || !RanksBefore(roster, draws, xs[0], x) then [x] + xs
    else
      assert xs == [xs[0]] + xs[1..];
      [xs[0]] + InsertRanked(roster, draws, x, xs[1..])
  }

  /** `rand_players`: the list sorted with `sort_by_score_rand`, given the
      draws. */
  function RandPlayers(roster: seq<Player>, draws: seq<int>, ps: seq<nat>): (r: seq<nat>)
    ensures multiset(r) == multiset(ps)
  {
    if ps == [] then []
    else
      assert ps == [ps[0]] + ps[1..];
      InsertRanked(roster, draws, ps[0], RandPlayers(roster, draws, ps[1..]))
  }

  lemma {:induction false} InsertRankedRanked(roster: seq<Player>, draws: seq<int>, x: nat, xs: seq<nat>)
    requires Ranked(roster, draws, xs)
    ensures Ranked(roster, draws, InsertRanked(roster, draws, x, xs))
  {
    if xs != [] && RanksBefore(roster, draws, xs[0], x) {
      var t := xs[1..];
      InsertRankedRanked(roster, draws, x, t);
      var i := InsertRanked(roster, draws, x, t);
      var r := [xs[0]] + i;
      forall a, b | 0 <= a < b < |r| ensures !RanksBefore(roster, draws, r[b], r[a]) {
        assert r[b] == i[b - 1];
        if a == 0 {
          assert r[b] in multiset(i);
          if r[b] != x {
            assert r[b] in t;
            var c :| 0 <= c < |t| && t[c] == r[b];
            assert xs[c + 1] == r[b];
          }
        } else {
          assert r[a] == i[a - 1];
        }
      }
    }
  }

  /** `rand_players` orders the list by `sort_by_score_rand` and keeps its
      players. */
  lemma {:induction false} RandPlayersRanked(roster: seq<Player>, draws: seq<int>, ps: seq<nat>)
    ensures Ranked(roster, draws, RandPlayers(roster, draws, ps))
    ensures multiset(RandPlayers(roster, draws, ps)) == multiset(ps)
  {
    if ps != [] {
      RandPlayersRanked(roster, draws, ps[1..]);
      InsertRankedRanked(roster, draws, ps[0], RandPlayers(roster, draws, ps[1..]));
    }
  }

  lemma {:induction false} InsertRankedDistinct(roster: seq<Player>, draws: seq<int>, x: nat, xs: seq<nat>)
    requires Distinct(xs) && x !in xs
    ensures Distinct(InsertRanked(roster, draws, x, xs))
  {
    if xs == [] || !RanksBefore(roster, draws, xs[0], x) {
      DistinctCons(x, xs);
    } else {
      var t := xs[1..];
      assert xs == [xs[0]] + t;
      InsertRankedDistinct(roster, draws, x, t);
      var i := InsertRanked(roster, draws, x, t);
      assert xs[0] !in multiset(i);
      DistinctCons(xs[0], i);
    }
  }

  /** A list without repetitions stays without them once sorted. */
  lemma {:induction false} RandPlayersDistinct(roster: seq<Player>, draws: seq<int>, ps: seq<nat>)
    requires Distinct(ps)
    ensures Distinct(RandPlayers(roster, draws, ps))
  {
    if ps != [] {
      var t := ps[1..];
      assert ps == [ps[0]] + t;
      RandPlayersDistinct(roster, draws, t);
      assert ps[0] !in multiset(RandPlayers(roster, draws, t));
      InsertRankedDistinct(roster, draws, ps[0], RandPlayers(roster, draws, t));
    }
  }

  /** `rand_players` keeps exactly the players of a list without
      repetitions, still without repetitions. */
  lemma RandPlayersKeeps(roster: seq<Player>, draws: seq<int>, ps: seq<nat>)
    requires Distinct(ps)
    ensures Distinct(RandPlayers(roster, draws, ps))
    ensures forall q: nat :: q in RandPlayers(roster, draws, ps) <==> q in ps
    ensures InRoster(roster, ps) ==> InRoster(roster, RandPlayers(roster, draws, ps))
  {
    RandPlayersDistinct(roster, draws, ps);
    var r := RandPlayers(roster, draws, ps);
    assert forall q: nat :: q in r <==> q in multiset(r);
    assert forall q: nat :: q in ps <==> q in multiset(ps);
    if InRoster(roster, ps) {
      forall j | 0 <= j < |r| ensures r[j] < |roster| {
        assert r[j] in ps;
      }
    }
  }

  /* ---------------------------------------------- move_player_to_game */

  /** Erasing position `i` of a list without repetitions leaves exactly the
      other players, still without repetitions. */
  lemma DropAt(ps: seq<nat>, i: nat)
    requires Distinct(ps) && i < |ps|
    ensures Distinct(ps[..i] + ps[i + 1..])
    ensures forall q: nat :: q in ps[..i] + ps[i + 1..] <==> q in ps && q != ps[i]
  {
    var r := ps[..i] + ps[i + 1..];
    assert forall j | 0 <= j < |r| :: r[j] == if j < i then ps[j] else ps[j + 1];
    forall q: nat | q in ps && q != ps[i] ensures q in r {
      var j :| 0 <= j < |ps| && ps[j] == q;
      assert r[if j < i then j else j - 1] == q;
    }
  }

  /** `move_player_to_game(s, game, players, no)`: player `players[no]`
      joins game `gi` and leaves the list. */
  method MovePlayerToGame(s: Sched, gi: nat, players: seq<nat>, no: nat) returns (players': seq<nat>)
    requires s.Valid() && gi < |s.games| && no < |players| && players[no] < |s.roster|
    requires Eligible(s.roundMask, s.games[gi], players[no])
    modifies s`games, s`roundMask, s`gamesPerPlayer, s.together
    ensures s.Valid()
    ensures Step(old(s.games), old(s.roundMask), old(s.gamesPerPlayer), s.games, s.roundMask, s.gamesPerPlayer, gi, players[no])
    ensures players' == players[..no] + players[no + 1..]
  {
    Add(s, gi, players[no]);
    players' := players[..no] + players[no + 1..];
  }

  /* ---------------------------------------------------- the fill loops */

  /** A player of a game is busy in its round. */
  lemma PlaysBusy(s: Sched, k: nat, q: nat)
    requires s.Valid() && k < |s.games| && q in s.games[k].players
    ensures TestBit(s.roundMask[s.games[k].round], q)
  {
    assert GameOk(s.variant, s.roster, s.games[k]);
    InGameBusy(s, k, q);
  }

  /** Where a fill loop stands: the list has no repetitions and only
      players of `players`, none of them busy in the round, while every
      player that left it is; the other rounds and the games outside `gl`
      are as they were. */
  ghost predicate Filling(games0: seq<Game>, rm0: seq<nat>, games: seq<Game>, rm: seq<nat>,
                          gl: seq<nat>, round: nat, players: seq<nat>, list: seq<nat>)
  {
    && round < |rm| && |rm| == |rm0| && |games| == |games0|
    && Distinct(list) && (forall q: nat :: q in list ==> q in players)
    && (forall j | 0 <= j < |list| :: !TestBit(rm[round], list[j]))
    && (forall q: nat | q in players && q !in list :: TestBit(rm[round], q))
    && (forall r, q: nat | 0 <= r < |rm| && r != round :: TestBit(rm[r], q) == TestBit(rm0[r], q))
    && (forall k | 0 <= k < |games| && k !in gl :: games[k] == games0[k])
  }

  /** Moving list player `list[p]` into game `g` of the round keeps
      `Filling`. */
  lemma FillingStep(games0: seq<Game>, rm0: seq<nat>, games: seq<Game>, rm: seq<nat>, gpp: seq<int>,
                    games': seq<Game>, rm': seq<nat>, gpp': seq<int>,
                    gl: seq<nat>, round: nat, players: seq<nat>, list: seq<nat>, g: nat, p: nat)
    requires Filling(games0, rm0, games, rm, gl, round, players, list)
    requires g in gl && g < |games| && p < |list| && games[g].round == round
    requires Step(games, rm, gpp, games', rm', gpp', g, list[p])
    ensures Filling(games0, rm0, games', rm', gl, round, players, list[..p] + list[p + 1..])
  {
    var q := list[p];
    StepExtends(games, rm, gpp, games', rm', gpp', g, q);
    DropAt(list, p);
  }

  /** The fill loops of `create_base_sched2`: at step `i`, from `i0` on,
      game `gl[fun(i, |gl|)]` takes the player `find_player` picks and the
      player leaves the list, until the list is empty or nobody on it may
      play the game (`last`).  Whoever leaves the list now plays in the
      round; nothing outside the round's games changes. */
  method FillGames(s: Sched, gl: seq<nat>, round: nat, players: seq<nat>, i0: nat)
      returns (players': seq<nat>, ghost last: nat)
    requires s.Valid() && |gl| > 0 && round < |s.roundMask|
    requires forall j | 0 <= j < |gl| :: gl[j] < |s.games| && s.games[gl[j]].round == round
    requires Distinct(players) && InRoster(s.roster, players)
    requires forall j | 0 <= j < |players| :: !TestBit(s.roundMask[round], players[j])
    modifies s`games, s`roundMask, s`gamesPerPlayer, s.together
    ensures s.Valid()
    ensures Extends(old(s.games), old(s.roundMask), old(s.gamesPerPlayer), s.games, s.roundMask, s.gamesPerPlayer)
    ensures Filling(old(s.games), old(s.roundMask), s.games, s.roundMask, gl, round, players, players')
    ensures last in gl && last < |s.games| && s.games[last].round == round
    ensures forall j | 0 <= j < |players'| :: TestBit(s.games[last].unavailable, players'[j])
  {
    ghost var games0, rm0, gpp0 := s.games, s.roundMask, s.gamesPerPlayer;
    players' := players;
    last := gl[0];
    var i := i0;
    while |players'| > 0
      invariant s.Valid()
      invariant Extends(games0, rm0, gpp0, s.games, s.roundMask, s.gamesPerPlayer)
      invariant Filling(games0, rm0, s.games, s.roundMask, gl, round, players, players')
      decreases |players'|
    {
      var g := gl[Fun(i, |gl|)];
      assert GameOk(s.variant, s.roster, s.games[g]);
      assert forall j | 0 <= j < |players'| :: players'[j] in players;
      var p := FindPlayer(s, g, players');
      if p == -1 {
        last := g;
        return;
      }
      ghost var games1, rm1, gpp1, list1 := s.games, s.roundMask, s.gamesPerPlayer, players';
      players' := MovePlayerToGame(s, g, players', p);
      FillingStep(games0, rm0, games1, rm1, gpp1, s.games, s.roundMask, s.gamesPerPlayer, gl, round, players, list1, g, p);
      StepExtends(games1, rm1, gpp1, s.games, s.roundMask, s.gamesPerPlayer, g, list1[p]);
      ExtendsTrans(games0, rm0, gpp0, games1, rm1, gpp1, s.games, s.roundMask, s.gamesPerPlayer);
      i := i + 1;
    }
  }

  /* ------------------------------------------------------ copy_players */

  lemma CountTwo(gs: seq<Game>, a: nat, b: nat, k: Query)
    requires a < b < |gs| && Holds(k, gs[a]) && Holds(k, gs[b])
    ensures Count(gs, k) >= 2
  {
    CountPrefix(gs, b, k);
    CountWitness(gs[..b], a, k);
  }

  /** A player is in at most one game of a round. */
  lemma SameRoundOneGame(s: Sched, a: nat, b: nat, q: nat)
    requires s.Valid() && a < |s.games| && b < |s.games| && s.games[a].round == s.games[b].round
    requires q in s.games[a].players && q in s.games[b].players
    ensures a == b
  {
    var k := InRound(s.games[a].round, q);
    assert Count(s.games, k) <= 1;
    if a < b {
      CountTwo(s.games, a, b, k);
      assert false;
    } else if b < a {
      CountTwo(s.games, b, a, k);
      assert false;
    }
  }

  /** Where `copy_players` stands after the first `t` players `ps` of the
      source game: only game `dst` changed, only players of `ps` became busy,
      and only in round `r`, where the players still to come are free; each
      player copied so far is in `dst` or, when `skip`, unavailable for it. */
  ghost predicate Copying(games0: seq<Game>, rm0: seq<nat>, games: seq<Game>, rm: seq<nat>,
                          dst: nat, r: nat, ps: seq<nat>, t: nat, skip: bool)
  {
    && |games| == |games0| && |rm| == |rm0| && dst < |games| && r < |rm| && t <= |ps|
    && (forall k | 0 <= k < |games| && k != dst :: games[k] == games0[k])
    && (forall u | t <= u < |ps| :: !TestBit(rm[r], ps[u]))
    && (forall r', q: nat | 0 <= r' < |rm| && r' != r :: TestBit(rm[r'], q) == TestBit(rm0[r'], q))
    && (forall q: nat | TestBit(rm[r], q) :: TestBit(rm0[r], q) || q in ps)
    && (forall u | 0 <= u < t :: TestBit(games[dst].mask, ps[u]) || (skip && TestBit(games[dst].unavailable, ps[u])))
  }

  /** Skipping a player `dst` marks unavailable keeps `Copying`. */
  lemma CopyingSkip(games0: seq<Game>, rm0: seq<nat>, games: seq<Game>, rm: seq<nat>,
                    dst: nat, r: nat, ps: seq<nat>, t: nat)
    requires Copying(games0, rm0, games, rm, dst, r, ps, t, true) && t < |ps|
    requires TestBit(games[dst].unavailable, ps[t])
    ensures Copying(games0, rm0, games, rm, dst, r, ps, t + 1, true)
  {
    assert TestBit(games[dst].mask, ps[t]) || TestBit(games[dst].unavailable, ps[t]);
  }

  /** Adding player `ps[t]` to `dst` keeps `Copying`. */
  lemma CopyingStep(games0: seq<Game>, rm0: seq<nat>, games: seq<Game>, rm: seq<nat>, gpp: seq<int>,
                    games': seq<Game>, rm': seq<nat>, gpp': seq<int>,
                    dst: nat, r: nat, ps: seq<nat>, t: nat, skip: bool)
    requires Copying(games0, rm0, games, rm, dst, r, ps, t, skip) && t < |ps| && Distinct(ps)
    requires games[dst].round == r && Step(games, rm, gpp, games', rm', gpp', dst, ps[t])
    ensures Copying(games0, rm0, games', rm', dst, r, ps, t + 1, skip)
  {
    StepExtends(games, rm, gpp, games', rm', gpp', dst, ps[t]);
  }

  /** `copy_players(s, dst, src)`: every player of game `src` joins game
      `dst`.  HT15 skips the players `dst` marks unavailable; VT15 adds them
      all, and its `add_player_to_game` assertion fails on such a player
      (`false`).  Only game `dst` and the busy bits of the source players
      in its round change. */
  method CopyPlayers(s: Sched, dst: nat, src: nat) returns (ok: bool)
    requires s.Valid() && dst < |s.games| && src < |s.games| && s.games[dst].round != s.games[src].round
    requires forall q | q in s.games[src].players :: !TestBit(s.roundMask[s.games[dst].round], q)
    modifies s`games, s`roundMask, s`gamesPerPlayer, s.together
    ensures s.Valid()
    ensures Extends(old(s.games), old(s.roundMask), old(s.gamesPerPlayer), s.games, s.roundMask, s.gamesPerPlayer)
    ensures s.variant == HT15 ==> ok
    ensures forall k | 0 <= k < |s.games| && k != dst :: s.games[k] == old(s.games[k])
    ensures forall r, q: nat | 0 <= r < |s.roundMask| && r != s.games[dst].round ::
              TestBit(s.roundMask[r], q) == TestBit(old(s.roundMask[r]), q)
    ensures forall q: nat | TestBit(s.roundMask[s.games[dst].round], q) ::
              TestBit(old(s.roundMask[s.games[dst].round]), q) || q in s.games[src].players
    ensures ok ==> forall q | q in s.games[src].players ::
                     TestBit(s.games[dst].mask, q) || (s.variant == HT15 && TestBit(s.games[dst].unavailable, q))
    ensures !ok ==> exists q | q in s.games[src].players :: TestBit(s.games[dst].unavailable, q)
  {
    ghost var games0, rm0, gpp0 := s.games, s.roundMask, s.gamesPerPlayer;
    var ps := s.games[src].players;
    var r := s.games[dst].round;
    var skip := s.variant == HT15;
    assert GameOk(s.variant, s.roster, s.games[src]);
    for t := 0 to |ps|
      invariant s.Valid()
      invariant Extends(games0, rm0, gpp0, s.games, s.roundMask, s.gamesPerPlayer)
      invariant Copying(games0, rm0, s.games, s.roundMask, dst, r, ps, t, skip)
    {
      var q := ps[t];
      if TestBit(s.games[dst].unavailable, q) {
        if skip {
          CopyingSkip(games0, rm0, s.games, s.roundMask, dst, r, ps, t);
          continue;
        }
        assert s.games[src] == games0[src] && q in s.games[src].players;
        return false;
      }
      ghost var games1, rm1, gpp1 := s.games, s.roundMask, s.gamesPerPlayer;
      Add(s, dst, q);
      CopyingStep(games0, rm0, games1, rm1, gpp1, s.games, s.roundMask, s.gamesPerPlayer, dst, r, ps, t, skip);
      ExtendsTrans(games0, rm0, gpp0, games1, rm1, gpp1, s.games, s.roundMask, s.gamesPerPlayer);
    }
    ok := true;
  }

  /** A player of a later game of the round is not a player of game
      `gl[i]`. */
  lemma CopiedApart(s: Sched, gl: seq<nat>, i: nat, j: nat, round: nat, q: nat)
    requires s.Valid() && Distinct(gl) && i < j < |gl|
    requires forall j' | 0 <= j' < |gl| :: gl[j'] < |s.games| && s.games[gl[j']].round == round
    requires q in s.games[gl[j]].players
    ensures q !in s.games[gl[i]].players
  {
    if q in s.games[gl[i]].players {
      SameRoundOneGame(s, gl[i], gl[j], q);
      assert false;
    }
  }

  /** Where the copy loop stands after the first `i` games of the round:
      the round's games are as they were, only their players are busy in
      the next round, and none of the games still to copy, while the other
      rounds are as they were; as long as no copy failed, game `cl[j]`
      holds the players of game `gl[j]`, but for those it marks unavailable
      when `skip`. */
  ghost predicate RoundCopying(games0: seq<Game>, rm0: seq<nat>, games: seq<Game>, rm: seq<nat>,
                               gl: seq<nat>, cl: seq<nat>, round: nat, i: nat, ok: bool, skip: bool)
  {
    && |games| == |games0| && |rm| == |rm0| && round + 1 < |rm| && i <= |gl| <= |cl|
    && (forall j | 0 <= j < |gl| :: gl[j] < |games| && games[gl[j]] == games0[gl[j]] && games[gl[j]].round == round)
    && (forall j | 0 <= j < |cl| :: cl[j] < |games| && games[cl[j]].round == round + 1)
    && (forall q: nat | TestBit(rm[round + 1], q) :: TestBit(rm[round], q))
    && (forall j, q | i <= j < |gl| && q in games[gl[j]].players :: !TestBit(rm[round + 1], q))
    && (forall r, q: nat | 0 <= r < |rm| && r != round + 1 :: TestBit(rm[r], q) == TestBit(rm0[r], q))
    && (ok ==> forall j, q | 0 <= j < i && q in games[gl[j]].players ::
                 TestBit(games[cl[j]].mask, q) || (skip && TestBit(games[cl[j]].unavailable, q)))
  }

  /** Copying game `gl[i]` into game `cl[i]`, as `CopyPlayers` promises,
      keeps `RoundCopying`, given that the players of `gl[i]` are busy in
      the round and in no later game of it. */
  lemma RoundCopyingStep(games0: seq<Game>, rm0: seq<nat>, games: seq<Game>, rm: seq<nat>, gpp: seq<int>,
                         games': seq<Game>, rm': seq<nat>, gpp': seq<int>,
                         gl: seq<nat>, cl: seq<nat>, round: nat, i: nat, ok: bool, skip: bool)
    requires RoundCopying(games0, rm0, games, rm, gl, cl, round, i, true, skip) && i < |gl|
    requires forall q | q in games[gl[i]].players :: TestBit(rm[round], q)
    requires forall j, q | i < j < |gl| && q in games[gl[j]].players :: q !in games[gl[i]].players
    requires Extends(games, rm, gpp, games', rm', gpp')
    requires forall k | 0 <= k < |games'| && k != cl[i] :: games'[k] == games[k]
    requires forall r, q: nat | 0 <= r < |rm'| && r != games'[cl[i]].round :: TestBit(rm'[r], q) == TestBit(rm[r], q)
    requires forall q: nat | TestBit(rm'[games'[cl[i]].round], q) :: TestBit(rm[games'[cl[i]].round], q) || q in games'[gl[i]].players
    requires ok ==> forall q | q in games'[gl[i]].players ::
                      TestBit(games'[cl[i]].mask, q) || (skip && TestBit(games'[cl[i]].unavailable, q))
    ensures RoundCopying(games0, rm0, games', rm', gl, cl, round, i + 1, ok, skip)
  {
    assert games'[gl[i]] == games[gl[i]];
    forall j | 0 <= j < |gl| ensures games'[gl[j]] == games0[gl[j]] {
      assert games[gl[j]].round == round;
    }
  }

  /** The copy loop of `create_base_sched2`: game `cl[i]` of the next round
      takes the players of game `gl[i]`, for each `i` below `|gl|`, until a
      copy fails.  Afterwards only players of the round are busy in the
      next one, and the other rounds and the round's own games are as they
      were. */
  method CopyRound(s: Sched, gl: seq<nat>, cl: seq<nat>, round: nat) returns (ok: bool)
    requires s.Valid() && |gl| <= |cl| && round + 1 < |s.roundMask| && Distinct(gl)
    requires forall j | 0 <= j < |gl| :: gl[j] < |s.games| && s.games[gl[j]].round == round
    requires forall j | 0 <= j < |cl| :: cl[j] < |s.games| && s.games[cl[j]].round == round + 1
    requires forall r, q: nat | round < r < |s.roundMask| && r <= round + 1 :: !TestBit(s.roundMask[r], q)
    modifies s`games, s`roundMask, s`gamesPerPlayer, s.together
    ensures s.Valid()
    ensures Extends(old(s.games), old(s.roundMask), old(s.gamesPerPlayer), s.games, s.roundMask, s.gamesPerPlayer)
    ensures s.variant == HT15 ==> ok
    ensures RoundCopying(old(s.games), old(s.roundMask), s.games, s.roundMask, gl, cl, round, |gl|, ok, s.variant == HT15)
  {
    ghost var games0, rm0, gpp0 := s.games, s.roundMask, s.gamesPerPlayer;
    var skip := s.variant == HT15;
    ok := true;
    var i := 0;
    while i < |gl| && ok
      invariant 0 <= i <= |gl|
      invariant s.Valid()
      invariant Extends(games0, rm0, gpp0, s.games, s.roundMask, s.gamesPerPlayer)
      invariant skip ==> ok
      invariant RoundCopying(games0, rm0, s.games, s.roundMask, gl, cl, round, i, ok, skip)
    {
      forall q | q in s.games[gl[i]].players ensures TestBit(s.roundMask[round], q) {
        PlaysBusy(s, gl[i], q);
      }
      forall j, q | i < j < |gl| && q in s.games[gl[j]].players ensures q !in s.games[gl[i]].players {
        CopiedApart(s, gl, i, j, round, q);
      }
      ghost var games1, rm1, gpp1 := s.games, s.roundMask, s.gamesPerPlayer;
      ok := CopyPlayers(s, cl[i], gl[i]);
      RoundCopyingStep(games0, rm0, games1, rm1, gpp1, s.games, s.roundMask, s.gamesPerPlayer, gl, cl, round, i, ok, skip);
      ExtendsTrans(games0, rm0, gpp0, games1, rm1, gpp1, s.games, s.roundMask, s.gamesPerPlayer);
      i := i + 1;
    }
    if i < |gl| {
      assert !ok;
    }
  }

  /* --------------------------------------------------- the round loop */

  /** Round `r` has a game. */
  ghost predicate HasGames(games: seq<Game>, r: nat)
  {
    exists k | 0 <= k < |games| :: games[k].round == r
  }

  /** Each of the first `n` players plays in round `r` or is unavailable
      for one of its games. */
  ghost predicate Covered(games: seq<Game>, rm: seq<nat>, r: nat, n: nat)
  {
    r < |rm|
    && forall q | 0 <= q < n ::
         TestBit(rm[r], q) || exists k | 0 <= k < |games| && games[k].round == r :: TestBit(games[k].unavailable, q)
  }

  /** The copy of a round: each player of game `gl[j]` plays in game
      `cl[j]`, or, where `skip` (HT15), is unavailable for it. */
  ghost predicate Copied(skip: bool, games: seq<Game>, gl: seq<nat>, cl: seq<nat>)
  {
    && |gl| <= |cl|
    && (forall j | 0 <= j < |cl| :: cl[j] < |games|)
    && (forall j | 0 <= j < |gl| :: gl[j] < |games|)
    && (forall j, q | 0 <= j < |gl| && q in games[gl[j]].players ::
          TestBit(games[cl[j]].mask, q) || (skip && TestBit(games[cl[j]].unavailable, q)))
  }

  /** The fill of round `r` from `list` stopped at a game of the round
      for which every player of `list` not playing in the round is
      unavailable. */
  ghost predicate FilledFrom(games: seq<Game>, rm: seq<nat>, r: nat, list: seq<nat>)
  {
    && r < |rm|
    && exists last | 0 <= last < |games| && games[last].round == r ::
         forall j | 0 <= j < |list| :: TestBit(rm[r], list[j]) || TestBit(games[last].unavailable, list[j])
  }

  /** A copied round, filled from the players the played round left over,
      is covered: a player of the played round is in its copy or (HT15)
      unavailable for it, and every other player was in the list. */
  lemma CopyCovered(v: Variant, roster: seq<Player>, games: seq<Game>, rm: seq<nat>, gpp: seq<int>,
                    gl: seq<nat>, cl: seq<nat>, round: nat, players: seq<nat>, skip: bool)
    requires Consistent(v, roster, games, rm, gpp) && round + 1 < |rm|
    requires forall k | 0 <= k < |games| && games[k].round == round :: k in gl
    requires forall j | 0 <= j < |cl| :: cl[j] < |games| && games[cl[j]].round == round + 1
    requires Copied(skip, games, gl, cl)
    requires forall q | 0 <= q < |roster| && !TestBit(rm[round], q) :: q in players
    requires FilledFrom(games, rm, round + 1, players)
    ensures Covered(games, rm, round + 1, |roster|)
  {
    var next := round + 1;
    var last :| 0 <= last < |games| && games[last].round == next
                && forall j | 0 <= j < |players| :: TestBit(rm[next], players[j]) || TestBit(games[last].unavailable, players[j]);
    forall q | 0 <= q < |roster| && !TestBit(rm[next], q)
      ensures exists k | 0 <= k < |games| && games[k].round == next :: TestBit(games[k].unavailable, q)
    {
      if TestBit(rm[round], q) {
        var k := CountFound(games, InRound(round, q));
        var j :| 0 <= j < |gl| && gl[j] == k;
        assert GameOk(v, roster, games[cl[j]]);
        if TestBit(games[cl[j]].mask, q) {
          CountWitness(games, cl[j], InRound(next, q));
        }
        assert TestBit(games[cl[j]].unavailable, q);
      } else {
        var j :| 0 <= j < |players| && players[j] == q;
        assert TestBit(games[last].unavailable, q);
      }
    }
  }

  /** Growing the schedule keeps a round covered. */
  lemma CoveredStays(games: seq<Game>, rm: seq<nat>, gpp: seq<int>,
                     games': seq<Game>, rm': seq<nat>, gpp': seq<int>, r: nat, n: nat)
    requires Extends(games, rm, gpp, games', rm', gpp') && Covered(games, rm, r, n)
    ensures Covered(games', rm', r, n)
  {
    forall q | 0 <= q < n && !TestBit(rm'[r], q)
      ensures exists k | 0 <= k < |games'| && games'[k].round == r :: TestBit(games'[k].unavailable, q)
    {
      var k :| 0 <= k < |games| && games[k].round == r && TestBit(games[k].unavailable, q);
      assert games'[k].round == r && TestBit(games'[k].unavailable, q);
    }
  }

  /** The draws of round `round` (none beyond the given ones). */
  function DrawsFor(draws: seq<seq<int>>, round: nat): seq<int>
  {
    if round < |draws| then draws[round] else []
  }

  /** Composing the seeding of game `g` with a fill loop of the round over
      the same players in another order keeps `Filling`. */
  lemma FillingThen(games0: seq<Game>, rm0: seq<nat>, games1: seq<Game>, rm1: seq<nat>, gpp1: seq<int>,
                    games2: seq<Game>, rm2: seq<nat>, gpp2: seq<int>,
                    gl: seq<nat>, round: nat, all: seq<nat>, l1: seq<nat>, l1': seq<nat>, l2: seq<nat>, g: nat)
    requires Filling(games0, rm0, games1, rm1, [g], round, all, l1)
    requires Filling(games1, rm1, games2, rm2, gl, round, l1', l2)
    requires Extends(games1, rm1, gpp1, games2, rm2, gpp2)
    requires g in gl && forall q: nat :: q in l1' <==> q in l1
    ensures Filling(games0, rm0, games2, rm2, gl, round, all, l2)
  {
  }

  /** Whoever is on a reordering of a fill list is idle in the round. */
  lemma FillingIdle(games0: seq<Game>, rm0: seq<nat>, games: seq<Game>, rm: seq<nat>,
                    gl: seq<nat>, round: nat, players: seq<nat>, list: seq<nat>, list': seq<nat>)
    requires Filling(games0, rm0, games, rm, gl, round, players, list)
    requires forall q: nat :: q in list' ==> q in list
    ensures forall j | 0 <= j < |list'| :: !TestBit(rm[round], list'[j])
  {
    forall j | 0 <= j < |list'|
      ensures !TestBit(rm[round], list'[j])
    {
      assert list'[j] in list;
      var k :| 0 <= k < |list| && list[k] == list'[j];
    }
  }

  /** A fill loop over the whole roster that stopped at a game of the round
      leaves the round covered. */
  lemma FillingCovered(games0: seq<Game>, rm0: seq<nat>, games: seq<Game>, rm: seq<nat>,
                       gl: seq<nat>, round: nat, n: nat, list: seq<nat>, last: nat)
    requires Filling(games0, rm0, games, rm, gl, round, AllPlayers(n), list)
    requires last < |games| && games[last].round == round
    requires forall j | 0 <= j < |list| :: TestBit(games[last].unavailable, list[j])
    ensures Covered(games, rm, round, n)
    ensures forall j | 0 <= j < |list| :: list[j] < n
  {
    forall j | 0 <= j < |list| ensures list[j] < n {
      assert list[j] in AllPlayers(n);
    }
    forall q | 0 <= q < n && !TestBit(rm[round], q)
      ensures exists k | 0 <= k < |games| && games[k].round == round :: TestBit(games[k].unavailable, q)
    {
      assert AllPlayers(n)[q] == q;
      var j :| 0 <= j < |list| && list[j] == q;
      assert TestBit(games[last].unavailable, list[j]);
    }
  }

  /** The start of a pass of the round loop: from position `round % N` on,
      the first player available for game `g` joins it and leaves the list
      of all players.  The scan does not wrap around: no player (`N = 0`)
      divides by zero and no available player from that position on reads
      past the roster, both `false`. */
  method SeedRound(s: Sched, g: nat, round: nat) returns (ok: bool, players: seq<nat>)
    requires s.Valid() && g < |s.games| && s.games[g].round == round
    requires forall q: nat :: !TestBit(s.roundMask[round], q)
    modifies s`games, s`roundMask, s`gamesPerPlayer, s.together
    ensures s.Valid()
    ensures Extends(old(s.games), old(s.roundMask), old(s.gamesPerPlayer), s.games, s.roundMask, s.gamesPerPlayer)
    ensures ok <==> |s.roster| > 0 && exists q | round % |s.roster| <= q < |s.roster| :: !TestBit(s.games[g].unavailable, q)
    ensures ok ==> Filling(old(s.games), old(s.roundMask), s.games, s.roundMask, [g], round, AllPlayers(|s.roster|), players)
    ensures ok ==> InRoster(s.roster, players)
    ensures !ok ==> s.roundMask == old(s.roundMask)
  {
    var n := |s.roster|;
    if n == 0 {
      return false, [];
    }
    var all := AllPlayers(n);
    var p := round % n;
    while p < n && TestBit(s.games[g].unavailable, all[p])
      invariant round % n <= p <= n
      invariant forall q | round % n <= q < p :: TestBit(s.games[g].unavailable, q)
      decreases n - p
    {
      p := p + 1;
    }
    if p == n {
      assert !exists q | round % n <= q < n :: !TestBit(s.games[g].unavailable, q);
      return false, [];
    }
    ok := true;
    ghost var games0, rm0, gpp0 := s.games, s.roundMask, s.gamesPerPlayer;
    DropAt(all, p);
    assert Filling(games0, rm0, games0, rm0, [g], round, all, all);
    players := MovePlayerToGame(s, g, all, p);
    StepExtends(games0, rm0, gpp0, s.games, s.roundMask, s.gamesPerPlayer, g, p);
    FillingStep(games0, rm0, games0, rm0, gpp0, s.games, s.roundMask, s.gamesPerPlayer, [g], round, all, all, g, p);
    assert s.games[g].unavailable == games0[g].unavailable && round % n <= p < n;
    forall j | 0 <= j < |players| ensures players[j] < n {
      assert players[j] in all;
    }
  }

  /** The first part of a pass of the round loop, for round `round` with
      games `gl`: `SeedRound` on `gl[0]`, then `rand_players` and the fill
      loop from step 1 on.  The round ends up covered, and the players left
      over are returned. */
  method PlayRound(s: Sched, gl: seq<nat>, round: nat, draws: seq<int>) returns (ok: bool, players: seq<nat>)
    requires s.Valid() && |gl| > 0 && round < |s.roundMask|
    requires forall j | 0 <= j < |gl| :: gl[j] < |s.games| && s.games[gl[j]].round == round
    requires forall q: nat :: !TestBit(s.roundMask[round], q)
    modifies s`games, s`roundMask, s`gamesPerPlayer, s.together
    ensures s.Valid()
    ensures Extends(old(s.games), old(s.roundMask), old(s.gamesPerPlayer), s.games, s.roundMask, s.gamesPerPlayer)
    ensures ok <==> |s.roster| > 0 && exists q | round % |s.roster| <= q < |s.roster| :: !TestBit(s.games[gl[0]].unavailable, q)
    ensures ok ==> Filling(old(s.games), old(s.roundMask), s.games, s.roundMask, gl, round, AllPlayers(|s.roster|), players)
    ensures ok ==> Covered(s.games, s.roundMask, round, |s.roster|)
    ensures ok ==> InRoster(s.roster, players)
    ensures !ok ==> s.roundMask == old(s.roundMask)
  {
    ghost var games0, rm0, gpp0 := s.games, s.roundMask, s.gamesPerPlayer;
    ok, players := SeedRound(s, gl[0], round);
    if !ok {
      return;
    }
    ghost var games1, rm1, gpp1 := s.games, s.roundMask, s.gamesPerPlayer;
    var sorted := RandPlayers(s.roster, draws, players);
    RandPlayersKeeps(s.roster, draws, players);
    FillingIdle(games0, rm0, games1, rm1, [gl[0]], round, AllPlayers(|s.roster|), players, sorted);
    ghost var last;
    players, last := FillGames(s, gl, round, sorted, 1);
    FillingThen(games0, rm0, games1, rm1, gpp1, s.games, s.roundMask, s.gamesPerPlayer,
                gl, round, AllPlayers(|s.roster|), sorted, sorted, players, gl[0]);
    ExtendsTrans(games0, rm0, gpp0, games1, rm1, gpp1, s.games, s.roundMask, s.gamesPerPlayer);
    FillingCovered(games0, rm0, s.games, s.roundMask, gl, round, |s.roster|, players, last);
  }

  /** The copy part of a pass of the round loop, after round `round` with
      games `gl` was played and `players` were left over: when the next
      round has games, the copy loop and then the fill loop of the next
      round over the players left over.  Fewer games in the next round than
      in this one index past `copy_games`: `Aborted`.  Only the next round
      changes. */
  method CopyPass(s: Sched, gl: seq<nat>, round: nat, players: seq<nat>) returns (r: Outcome)
    requires s.Valid() && Distinct(gl) && round < |s.roundMask|
    requires forall j | 0 <= j < |gl| :: gl[j] < |s.games| && s.games[gl[j]].round == round
    requires Distinct(players) && InRoster(s.roster, players)
    requires forall j | 0 <= j < |players| :: !TestBit(s.roundMask[round], players[j])
    requires forall r', q: nat | round < r' < |s.roundMask| && r' <= round + 1 :: !TestBit(s.roundMask[r'], q)
    modifies s`games, s`roundMask, s`gamesPerPlayer, s.together
    ensures s.Valid()
    ensures Extends(old(s.games), old(s.roundMask), old(s.gamesPerPlayer), s.games, s.roundMask, s.gamesPerPlayer)
    ensures forall r', q: nat | 0 <= r' < |s.roundMask| && r' != round + 1 ::
              TestBit(s.roundMask[r'], q) == TestBit(old(s.roundMask[r']), q)
    ensures r != OutOfFuel
    ensures forall j | 0 <= j < |gl| :: s.games[gl[j]] == old(s.games[gl[j]])
    ensures var cl := RoundIndices(old(s.games), round + 1);
            && (cl == [] ==> r.Built? && s.games == old(s.games) && s.roundMask == old(s.roundMask))
            && (cl != [] && |cl| < |gl| ==> r.Aborted?)
            && (r.Aborted? ==> cl != [] && (|cl| < |gl| || s.variant != HT15))
            && (r.Built? && cl != [] ==>
                  Copied(s.variant == HT15, s.games, gl, cl) && FilledFrom(s.games, s.roundMask, round + 1, players))
  {
    var cl := CopyGamesInRound([], s.games, round + 1);
    assert cl == RoundIndices(s.games, round + 1);
    RoundIndicesMembers(s.games, round + 1);
    if |cl| == 0 {
      r := Built;
    } else if |cl| < |gl| {
      r := Aborted;
    } else {
      assert cl[0] in cl;
      assert GameOk(s.variant, s.roster, s.games[cl[0]]);
      assert forall j | 0 <= j < |cl| :: cl[j] in cl;
      r := CopyAndFill(s, gl, cl, round, players);
    }
  }

  /** The copy into the games `cl` of round `round + 1`, then the fill
      from the leftover `players`; VT15 aborts on an unavailable copy. */
  method CopyAndFill(s: Sched, gl: seq<nat>, cl: seq<nat>, round: nat, players: seq<nat>) returns (r: Outcome)
    requires s.Valid() && Distinct(gl) && 0 < |cl| && |gl| <= |cl| && round + 1 < |s.roundMask|
    requires forall j | 0 <= j < |gl| :: gl[j] < |s.games| && s.games[gl[j]].round == round
    requires forall j | 0 <= j < |cl| :: cl[j] < |s.games| && s.games[cl[j]].round == round + 1
    requires Distinct(players) && InRoster(s.roster, players)
    requires forall j | 0 <= j < |players| :: !TestBit(s.roundMask[round], players[j])
    requires forall r', q: nat | round < r' < |s.roundMask| && r' <= round + 1 :: !TestBit(s.roundMask[r'], q)
    modifies s`games, s`roundMask, s`gamesPerPlayer, s.together
    ensures s.Valid()
    ensures Extends(old(s.games), old(s.roundMask), old(s.gamesPerPlayer), s.games, s.roundMask, s.gamesPerPlayer)
    ensures forall r', q: nat | 0 <= r' < |s.roundMask| && r' != round + 1 ::
              TestBit(s.roundMask[r'], q) == TestBit(old(s.roundMask[r']), q)
    ensures r.Built? || r.Aborted?
    ensures r.Aborted? ==> s.variant != HT15
    ensures forall j | 0 <= j < |gl| :: s.games[gl[j]] == old(s.games[gl[j]])
    ensures r.Built? ==> Copied(s.variant == HT15, s.games, gl, cl) && FilledFrom(s.games, s.roundMask, round + 1, players)
  {
    ghost var games1, rm1, gpp1 := s.games, s.roundMask, s.gamesPerPlayer;
    var ok := CopyRound(s, gl, cl, round);
    if !ok {
      r := Aborted;
    } else {
      ghost var games2, rm2, gpp2 := s.games, s.roundMask, s.gamesPerPlayer;
      ghost var last;
      var copy2;
      copy2, last := FillGames(s, cl, round + 1, players, 0);
      ExtendsTrans(games1, rm1, gpp1, games2, rm2, gpp2, s.games, s.roundMask, s.gamesPerPlayer);
      CopyPassDone(games1, rm1, games2, rm2, gpp2, s.games, s.roundMask, s.gamesPerPlayer,
                   gl, cl, round, players, copy2, last, s.variant == HT15);
      r := Built;
    }
  }

  /** After the copy and the fill of round `round + 1`, the copies stand,
      the fill stopped at game `last`, and the games of round `round` are
      as before. */
  lemma CopyPassDone(games1: seq<Game>, rm1: seq<nat>, games2: seq<Game>, rm2: seq<nat>, gpp2: seq<int>,
                     games3: seq<Game>, rm3: seq<nat>, gpp3: seq<int>,
                     gl: seq<nat>, cl: seq<nat>, round: nat, players: seq<nat>, list: seq<nat>, last: nat, skip: bool)
    requires RoundCopying(games1, rm1, games2, rm2, gl, cl, round, |gl|, true, skip)
    requires Extends(games2, rm2, gpp2, games3, rm3, gpp3)
    requires Filling(games2, rm2, games3, rm3, cl, round + 1, players, list)
    requires last < |games3| && games3[last].round == round + 1
    requires forall j | 0 <= j < |list| :: TestBit(games3[last].unavailable, list[j])
    ensures Copied(skip, games3, gl, cl) && FilledFrom(games3, rm3, round + 1, players)
    ensures forall j | 0 <= j < |gl| :: games3[gl[j]] == games1[gl[j]]
  {
    forall j | 0 <= j < |gl|
      ensures games3[gl[j]] == games2[gl[j]]
    {
      assert forall i | 0 <= i < |cl| :: cl[i] != gl[j];
    }
    forall j | 0 <= j < |players|
      ensures TestBit(rm3[round + 1], players[j]) || TestBit(games3[last].unavailable, players[j])
    {
      if players[j] in list {
        var i :| 0 <= i < |list| && list[i] == players[j];
      }
    }
  }

  /** One pass of the round loop of `create_base_sched2`, for round
      `round`: nothing when it has no game; otherwise `PlayRound`, then
      `CopyPass`.  Only the two rounds change, and this one ends up
      covered. */
  method RoundPass(s: Sched, round: nat, draws: seq<int>) returns (r: Outcome)
    requires s.Valid()
    requires forall r', q: nat | round <= r' < |s.roundMask| && r' <= round + 1 :: !TestBit(s.roundMask[r'], q)
    modifies s`games, s`roundMask, s`gamesPerPlayer, s.together
    ensures s.Valid()
    ensures Extends(old(s.games), old(s.roundMask), old(s.gamesPerPlayer), s.games, s.roundMask, s.gamesPerPlayer)
    ensures forall r', q: nat | 0 <= r' < |s.roundMask| && r' != round && r' != round + 1 ::
              TestBit(s.roundMask[r'], q) == TestBit(old(s.roundMask[r']), q)
    ensures r != OutOfFuel
    ensures !HasGames(old(s.games), round) ==>
              && r.Built? && s.games == old(s.games) && s.roundMask == old(s.roundMask)
              && s.gamesPerPlayer == old(s.gamesPerPlayer)
    ensures r.Built? && HasGames(s.games, round) ==> Covered(s.games, s.roundMask, round, |s.roster|)
    ensures r.Built? && HasGames(s.games, round) && HasGames(s.games, round + 1) ==>
              && Covered(s.games, s.roundMask, round + 1, |s.roster|)
              && Copied(s.variant == HT15, s.games, RoundIndices(s.games, round), RoundIndices(s.games, round + 1))
  {
    ghost var games0 := s.games;
    var gl := CopyGamesInRound([], s.games, round);
    assert gl == RoundIndices(games0, round);
    RoundGames(s.variant, s.roster, s.games, s.roundMask, s.gamesPerPlayer, round);
    if |gl| == 0 {
      r := Built;
    } else {
      r := PlayAndCopy(s, gl, round, draws);
      RoundIndicesSameRounds(games0, s.games, round);
      assert RoundIndices(s.games, round) == gl;
    }
  }

  /** The games of a round, as `copy_games_in_round` collects them: each
      once, all of them, and some exactly when the round has games. */
  lemma RoundGames(v: Variant, roster: seq<Player>, games: seq<Game>, rm: seq<nat>, gpp: seq<int>, round: nat)
    requires Consistent(v, roster, games, rm, gpp)
    ensures var gl := RoundIndices(games, round);
            && Distinct(gl)
            && (forall j | 0 <= j < |gl| :: gl[j] < |games| && games[gl[j]].round == round)
            && (forall k | 0 <= k < |games| && games[k].round == round :: k in gl)
            && (|gl| > 0 <==> HasGames(games, round))
            && (|gl| > 0 ==> round < |rm|)
  {
    var gl := RoundIndices(games, round);
    RoundIndicesMembers(games, round);
    RoundIndicesIncreasing(games, round);
    assert forall j | 0 <= j < |gl| :: gl[j] in gl;
    if |gl| > 0 {
      assert gl[0] in gl;
    }
  }

  /** A round with games: `PlayRound`, then, unless it aborts, `CopyPass`. */
  method PlayAndCopy(s: Sched, gl: seq<nat>, round: nat, draws: seq<int>) returns (r: Outcome)
    requires s.Valid() && |gl| > 0 && Distinct(gl) && round < |s.roundMask|
    requires forall j | 0 <= j < |gl| :: gl[j] < |s.games| && s.games[gl[j]].round == round
    requires forall k | 0 <= k < |s.games| && s.games[k].round == round :: k in gl
    requires forall r', q: nat | round <= r' < |s.roundMask| && r' <= round + 1 :: !TestBit(s.roundMask[r'], q)
    modifies s`games, s`roundMask, s`gamesPerPlayer, s.together
    ensures s.Valid()
    ensures Extends(old(s.games), old(s.roundMask), old(s.gamesPerPlayer), s.games, s.roundMask, s.gamesPerPlayer)
    ensures forall r', q: nat | 0 <= r' < |s.roundMask| && r' != round && r' != round + 1 ::
              TestBit(s.roundMask[r'], q) == TestBit(old(s.roundMask[r']), q)
    ensures r != OutOfFuel
    ensures r.Built? ==> Covered(s.games, s.roundMask, round, |s.roster|)
    ensures r.Built? && HasGames(s.games, round + 1) ==>
              && Covered(s.games, s.roundMask, round + 1, |s.roster|)
              && Copied(s.variant == HT15, s.games, gl, RoundIndices(s.games, round + 1))
  {
    ghost var games0, rm0, gpp0 := s.games, s.roundMask, s.gamesPerPlayer;
    var ok, players := PlayRound(s, gl, round, draws);
    if !ok {
      return Aborted;
    }
    ghost var games1, rm1, gpp1 := s.games, s.roundMask, s.gamesPerPlayer;
    FilledReady(games0, rm0, gpp0, games1, rm1, gpp1, gl, round, AllPlayers(|s.roster|), players);
    r := CopyPass(s, gl, round, players);
    ExtendsTrans(games0, rm0, gpp0, games1, rm1, gpp1, s.games, s.roundMask, s.gamesPerPlayer);
    CoveredStays(games1, rm1, gpp1, s.games, s.roundMask, s.gamesPerPlayer, round, |s.roster|);
    FramesCompose(rm0, rm1, s.roundMask, round);
    if r.Built? {
      CopyFacts(games0, rm0, games1, rm1, s.games, s.roundMask, |s.roster|, gl, round, players, s.variant == HT15);
      if HasGames(s.games, round + 1) {
        CopyDone(s.variant, s.roster, s.games, s.roundMask, s.gamesPerPlayer, gl, round, players, s.variant == HT15);
      }
    }
  }

  /** After a built copy pass, what the fill and the copy established, in
      terms of the final games: the round's games are all in `gl`, every
      player not busy in the round is a leftover, and a next round with
      games holds the copies and was filled from the leftovers. */
  lemma CopyFacts(games0: seq<Game>, rm0: seq<nat>, games1: seq<Game>, rm1: seq<nat>,
                  games3: seq<Game>, rm3: seq<nat>, n: nat, gl: seq<nat>, round: nat, players: seq<nat>, skip: bool)
    requires Filling(games0, rm0, games1, rm1, gl, round, AllPlayers(n), players)
    requires |games3| == |games0| && forall k | 0 <= k < |games0| :: games3[k].round == games0[k].round
    requires forall k | 0 <= k < |games0| :: games1[k].round == games0[k].round
    requires forall k | 0 <= k < |games0| && games0[k].round == round :: k in gl
    requires |rm3| == |rm1| && forall q: nat :: TestBit(rm3[round], q) == TestBit(rm1[round], q)
    requires RoundIndices(games1, round + 1) != [] ==>
               && Copied(skip, games3, gl, RoundIndices(games1, round + 1))
               && FilledFrom(games3, rm3, round + 1, players)
    ensures forall k | 0 <= k < |games3| && games3[k].round == round :: k in gl
    ensures round < |rm3| && forall q | 0 <= q < n && !TestBit(rm3[round], q) :: q in players
    ensures RoundIndices(games3, round + 1) != [] ==>
              Copied(skip, games3, gl, RoundIndices(games3, round + 1)) && FilledFrom(games3, rm3, round + 1, players)
  {
    RoundIndicesSameRounds(games1, games3, round + 1);
    LeftoversFrom(games0, rm0, games1, rm1, rm3, gl, round, n, players);
  }

  /** A next round with games is covered once the copy facts hold of the
      final games. */
  lemma CopyDone(v: Variant, roster: seq<Player>, games: seq<Game>, rm: seq<nat>, gpp: seq<int>,
                     gl: seq<nat>, round: nat, players: seq<nat>, skip: bool)
    requires Consistent(v, roster, games, rm, gpp) && HasGames(games, round + 1)
    requires forall k | 0 <= k < |games| && games[k].round == round :: k in gl
    requires forall q | 0 <= q < |roster| && !TestBit(rm[round], q) :: q in players
    requires RoundIndices(games, round + 1) != [] ==>
               Copied(skip, games, gl, RoundIndices(games, round + 1)) && FilledFrom(games, rm, round + 1, players)
    ensures RoundIndices(games, round + 1) != [] && Covered(games, rm, round + 1, |roster|)
  {
    RoundIndicesMembers(games, round + 1);
    var k :| 0 <= k < |games| && games[k].round == round + 1;
    assert k in RoundIndices(games, round + 1);
    CopyCovered(v, roster, games, rm, gpp, gl, RoundIndices(games, round + 1), round, players, skip);
  }

  /** A player the fill of round `round` did not place is among the
      leftovers, as long as the round's busy bits stay as the fill left
      them. */
  lemma LeftoversFrom(games0: seq<Game>, rm0: seq<nat>, games1: seq<Game>, rm1: seq<nat>, rm2: seq<nat>,
                      gl: seq<nat>, round: nat, n: nat, list: seq<nat>)
    requires Filling(games0, rm0, games1, rm1, gl, round, AllPlayers(n), list)
    requires |rm2| == |rm1| && forall q: nat :: TestBit(rm2[round], q) == TestBit(rm1[round], q)
    ensures forall q | 0 <= q < n && !TestBit(rm2[round], q) :: q in list
  {
    forall q | 0 <= q < n && !TestBit(rm2[round], q)
      ensures q in list
    {
      assert AllPlayers(n)[q] == q;
    }
  }

  /** After `PlayRound` has filled round `round`, the players it placed
      are free in that round as `CopyPass` needs them, and the next round
      is still empty. */
  lemma FilledReady(games0: seq<Game>, rm0: seq<nat>, gpp0: seq<int>,
                    games1: seq<Game>, rm1: seq<nat>, gpp1: seq<int>,
                    gl: seq<nat>, round: nat, all: seq<nat>, list: seq<nat>)
    requires Extends(games0, rm0, gpp0, games1, rm1, gpp1)
    requires Filling(games0, rm0, games1, rm1, gl, round, all, list)
    requires forall j | 0 <= j < |gl| :: gl[j] < |games0| && games0[gl[j]].round == round
    requires forall r', q: nat | round <= r' < |rm0| && r' <= round + 1 :: !TestBit(rm0[r'], q)
    ensures round < |rm1| && Distinct(list)
    ensures forall j | 0 <= j < |gl| :: gl[j] < |games1| && games1[gl[j]].round == round
    ensures forall j | 0 <= j < |list| :: !TestBit(rm1[round], list[j])
    ensures forall r', q: nat | round < r' < |rm1| && r' <= round + 1 :: !TestBit(rm1[r'], q)
  {
  }

  /** A change confined to round `round` followed by one confined to
      round `round + 1` leaves every other round as it was. */
  lemma FramesCompose(rm0: seq<nat>, rm1: seq<nat>, rm2: seq<nat>, round: nat)
    requires |rm1| == |rm0| && |rm2| == |rm1|
    requires forall r', q: nat | 0 <= r' < |rm1| && r' != round :: TestBit(rm1[r'], q) == TestBit(rm0[r'], q)
    requires forall r', q: nat | 0 <= r' < |rm2| && r' != round + 1 :: TestBit(rm2[r'], q) == TestBit(rm1[r'], q)
    ensures forall r', q: nat | 0 <= r' < |rm2| && r' != round && r' != round + 1 ::
              TestBit(rm2[r'], q) == TestBit(rm0[r'], q)
  {
  }

  /** Round `r` is one the round loop fills: an even round with games, or
      an odd round with games whose even round before it has games (it gets
      the copies). */
  ghost predicate FilledByLoop(games: seq<Game>, r: nat)
  {
    HasGames(games, r) && (r % 2 == 0 || HasGames(games, r - 1))
  }

  /** The rounds below `round` that the round loop fills are covered. */
  ghost predicate CoveredBelow(games: seq<Game>, rm: seq<nat>, round: nat, n: nat)
  {
    forall r': nat | r' < round && FilledByLoop(games, r') :: Covered(games, rm, r', n)
  }

  /** Growing the schedule keeps `CoveredBelow`. */
  lemma CoveredBelowStays(games: seq<Game>, rm: seq<nat>, gpp: seq<int>,
                          games': seq<Game>, rm': seq<nat>, gpp': seq<int>, round: nat, n: nat)
    requires Extends(games, rm, gpp, games', rm', gpp') && CoveredBelow(games, rm, round, n)
    ensures CoveredBelow(games', rm', round, n)
  {
    forall r': nat | r' < round && FilledByLoop(games', r')
      ensures Covered(games', rm', r', n)
    {
      var k :| 0 <= k < |games'| && games'[k].round == r';
      assert games[k].round == r';
      if r' % 2 != 0 {
        var k' :| 0 <= k' < |games'| && games'[k'].round == r' - 1;
        assert games[k'].round == r' - 1;
        assert HasGames(games, r' - 1);
      }
      assert FilledByLoop(games, r');
      CoveredStays(games, rm, gpp, games', rm', gpp', r', n);
    }
  }

  /** A covered round `round`, and the round after it when both have games,
      extend `CoveredBelow` to the next pair of rounds. */
  lemma CoveredBelowNext(games: seq<Game>, rm: seq<nat>, round: nat, n: nat)
    requires round % 2 == 0 && CoveredBelow(games, rm, round, n)
    requires HasGames(games, round) ==> Covered(games, rm, round, n)
    requires HasGames(games, round) && HasGames(games, round + 1) ==> Covered(games, rm, round + 1, n)
    ensures CoveredBelow(games, rm, round + 2, n)
  {
    forall r': nat | r' < round + 2 && FilledByLoop(games, r')
      ensures Covered(games, rm, r', n)
    {
      if r' == round + 1 {
        assert r' - 1 == round;
      }
    }
  }

  /** The round loop of `create_base_sched2`: `RoundPass` on rounds 0, 2,
      4, .. up to `max_round`, on a schedule where nobody plays yet.  Each
      round of the loop that has games ends up covered, and so does the
      round after it when that one has games too. */
  method PlayRounds(s: Sched, maxRound: int, draws: seq<seq<int>>) returns (r: Outcome)
    requires s.Valid()
    requires forall r', q: nat | 0 <= r' < |s.roundMask| :: !TestBit(s.roundMask[r'], q)
    modifies s`games, s`roundMask, s`gamesPerPlayer, s.together
    ensures s.Valid()
    ensures Extends(old(s.games), old(s.roundMask), old(s.gamesPerPlayer), s.games, s.roundMask, s.gamesPerPlayer)
    ensures r != OutOfFuel
    ensures r.Built? ==> CoveredBelow(s.games, s.roundMask, if maxRound < 0 then 0 else maxRound + 1, |s.roster|)
  {
    ghost var games0, rm0, gpp0 := s.games, s.roundMask, s.gamesPerPlayer;
    var round: nat := 0;
    while round <= maxRound
      invariant round % 2 == 0
      invariant s.Valid()
      invariant Extends(games0, rm0, gpp0, s.games, s.roundMask, s.gamesPerPlayer)
      invariant forall r', q: nat | round <= r' < |s.roundMask| :: !TestBit(s.roundMask[r'], q)
      invariant CoveredBelow(s.games, s.roundMask, round, |s.roster|)
      decreases maxRound - round
    {
      ghost var games1, rm1, gpp1 := s.games, s.roundMask, s.gamesPerPlayer;
      r := RoundPass(s, round, DrawsFor(draws, round));
      if r != Built {
        return;
      }
      ExtendsTrans(games0, rm0, gpp0, games1, rm1, gpp1, s.games, s.roundMask, s.gamesPerPlayer);
      CoveredBelowStays(games1, rm1, gpp1, s.games, s.roundMask, s.gamesPerPlayer, round, |s.roster|);
      CoveredBelowNext(s.games, s.roundMask, round, |s.roster|);
      round := round + 2;
    }
    r := Built;
  }

  /* ------------------------------------------------------- the trimming */

  /** Game `g` counts more than `limit` players and `p` is one of them. */
  predicate Overfull(g: Game, p: nat, limit: int)
  {
    g.count > limit && TestBit(g.mask, p)
  }

  /** The `games` of the trimming loop: the games `Overfull` for `p` with
      the highest `get_score` among those, all of them, in order. */
  method TopGames(s: Sched, p: nat, limit: nat) returns (top: seq<nat>)
    ensures forall t | 0 <= t < |top| :: top[t] < |s.games| && Overfull(s.games[top[t]], p, limit)
    ensures forall t, u | 0 <= t < u < |top| :: top[t] < top[u]
    ensures top == [] <==> forall k | 0 <= k < |s.games| :: !Overfull(s.games[k], p, limit)
    ensures top != [] ==>
              forall k | 0 <= k < |s.games| && Overfull(s.games[k], p, limit) ::
                && GameScore(s.variant, s.games[k]) <= GameScore(s.variant, s.games[top[0]])
                && (GameScore(s.variant, s.games[k]) == GameScore(s.variant, s.games[top[0]]) <==> k in top)
  {
    top := [];
    for k := 0 to |s.games|
      invariant TopSoFar(s.variant, s.games, p, limit, k, top)
    {
      var g := s.games[k];
      if !Overfull(g, p, limit) {
        TopKeep(s.variant, s.games, p, limit, k, top);
        continue;
      }
      var score := GameScore(s.variant, g);
      if top == [] || score > GameScore(s.variant, s.games[top[0]]) {
        TopRestart(s.variant, s.games, p, limit, k, top);
        top := [k];
      } else if score == GameScore(s.variant, s.games[top[0]]) {
        TopTie(s.variant, s.games, p, limit, k, top);
        top := top + [k];
      } else {
        TopKeep(s.variant, s.games, p, limit, k, top);
      }
    }
  }

  /** `top` is what `TopGames` keeps after the games below `k`: the
      increasing positions of the over-full games of the best score. */
  ghost predicate TopSoFar(v: Variant, games: seq<Game>, p: nat, limit: nat, k: nat, top: seq<nat>)
  {
    && k <= |games|
    && (forall t | 0 <= t < |top| :: top[t] < k && Overfull(games[top[t]], p, limit))
    && (forall t, u | 0 <= t < u < |top| :: top[t] < top[u])
    && (top == [] <==> forall k' | 0 <= k' < k :: !Overfull(games[k'], p, limit))
    && (top != [] ==>
          forall k' | 0 <= k' < k && Overfull(games[k'], p, limit) ::
            && GameScore(v, games[k']) <= GameScore(v, games[top[0]])
            && (GameScore(v, games[k']) == GameScore(v, games[top[0]]) <==> k' in top))
  }

  /** A game that is not over-full, or scores below the kept ones,
      leaves `top` as it is. */
  lemma TopKeep(v: Variant, games: seq<Game>, p: nat, limit: nat, k: nat, top: seq<nat>)
    requires k < |games| && TopSoFar(v, games, p, limit, k, top)
    requires !Overfull(games[k], p, limit) || (top != [] && GameScore(v, games[k]) < GameScore(v, games[top[0]]))
    ensures TopSoFar(v, games, p, limit, k + 1, top)
  {
  }

  /** The first over-full game, or one scoring above the kept ones,
      starts `top` afresh. */
  lemma TopRestart(v: Variant, games: seq<Game>, p: nat, limit: nat, k: nat, top: seq<nat>)
    requires k < |games| && TopSoFar(v, games, p, limit, k, top) && Overfull(games[k], p, limit)
    requires top == [] || GameScore(v, games[k]) > GameScore(v, games[top[0]])
    ensures TopSoFar(v, games, p, limit, k + 1, [k])
  {
    assert forall k' | 0 <= k' < k && Overfull(games[k'], p, limit) :: GameScore(v, games[k']) < GameScore(v, games[k]);
  }

  /** An over-full game scoring as the kept ones joins `top`. */
  lemma TopTie(v: Variant, games: seq<Game>, p: nat, limit: nat, k: nat, top: seq<nat>)
    requires k < |games| && TopSoFar(v, games, p, limit, k, top) && Overfull(games[k], p, limit)
    requires top != [] && GameScore(v, games[k]) == GameScore(v, games[top[0]])
    ensures TopSoFar(v, games, p, limit, k + 1, top + [k])
  {
    var top' := top + [k];
    assert top'[0] == top[0];
    assert forall k': nat :: k' in top' <==> k' in top || k' == k;
  }

  /** The `rand()` value of pass `i` of the trimming loop (0 beyond the
      given ones). */
  function Pick(picks: seq<nat>, i: nat): nat
  {
    if i < |picks| then picks[i] else 0
  }

  /** What trimming does to the games and counts: each game keeps its round
      and unavailability and only loses players, a game that was not over
      `limit` is untouched, and a player's count only drops, never below
      `target - 1` unless it already was. */
  ghost predicate Trimmed(games0: seq<Game>, gpp0: seq<int>, games: seq<Game>, gpp: seq<int>, limit: int, target: int)
  {
    && |games| == |games0| && |gpp| == |gpp0|
    && (forall k | 0 <= k < |games| ::
          && games[k].round == games0[k].round && games[k].unavailable == games0[k].unavailable
          && (forall q: nat :: TestBit(games[k].mask, q) ==> TestBit(games0[k].mask, q))
          && (games0[k].count <= limit ==> games[k] == games0[k]))
    && (forall q | 0 <= q < |gpp| :: gpp[q] <= gpp0[q] && (gpp[q] == gpp0[q] || gpp[q] >= target - 1))
  }

  /** Removing an `Overfull` game's player who plays at least `target`
      games keeps `Trimmed`. */
  lemma TrimmedStep(v: Variant, roster: seq<Player>, games0: seq<Game>, gpp0: seq<int>, games: seq<Game>, gpp: seq<int>,
                    limit: int, target: int, g: nat, p: nat)
    requires Trimmed(games0, gpp0, games, gpp, limit, target)
    requires g < |games| && p < |roster| && p < WordBits && p < |gpp|
    requires Overfull(games[g], p, limit) && gpp[p] >= target
    ensures Trimmed(games0, gpp0, games[g := Left(v, roster, games[g], p)], gpp[p := gpp[p] - 1], limit, target)
  {
  }

  /** One pass of the trimming loop for player `p`: unless it plays fewer
      than `target` games, it leaves one of its `TopGames`, the one at
      `pick % size`. */
  method TrimPass(s: Sched, p: nat, target: int, pick: nat, ghost games0: seq<Game>, ghost gpp0: seq<int>)
    requires s.Valid() && p < |s.roster|
    requires Trimmed(games0, gpp0, s.games, s.gamesPerPlayer, PlayersPerGame(s.variant), target)
    modifies s`games, s`roundMask, s`gamesPerPlayer, s.together
    ensures s.Valid()
    ensures Trimmed(games0, gpp0, s.games, s.gamesPerPlayer, PlayersPerGame(s.variant), target)
  {
    if s.gamesPerPlayer[p] >= target {
      var limit := PlayersPerGame(s.variant);
      var top := TopGames(s, p, limit);
      if top != [] {
        var g := top[pick % |top|];
        TrimmedStep(s.variant, s.roster, games0, gpp0, s.games, s.gamesPerPlayer, limit, target, g, p);
        s.RemovePlayerFromGame(g, p);
      }
    }
  }

  /** The trimming loop of `create_base_sched2`, given the `rand()` values
      and at most `fuel` passes: while some game counts more than
      `players_per_game` players, player `fun(pi, N)` of pass `pi`, unless
      it plays fewer than `target` games, leaves one of its `TopGames`,
      `rand() % size` picking which.  It ends `Built` exactly when no game
      is over the limit; no player (`N = 0`) divides by zero: `Aborted`. */
  method Trim(s: Sched, target: int, picks: seq<nat>, fuel: nat) returns (r: Outcome)
    requires s.Valid()
    modifies s`games, s`roundMask, s`gamesPerPlayer, s.together
    ensures s.Valid()
    ensures r.Built? <==> forall k | 0 <= k < |s.games| :: s.games[k].count <= PlayersPerGame(s.variant)
    ensures r.Aborted? ==> |s.roster| == 0
    ensures Trimmed(old(s.games), old(s.gamesPerPlayer), s.games, s.gamesPerPlayer, PlayersPerGame(s.variant), target)
  {
    ghost var games0, gpp0 := s.games, s.gamesPerPlayer;
    var n := |s.roster|;
    var limit := PlayersPerGame(s.variant);
    var pi := 0;
    var over := TooManyPlayers(s.games, limit);
    while over && pi < fuel
      invariant s.Valid()
      invariant Trimmed(games0, gpp0, s.games, s.gamesPerPlayer, limit, target)
      invariant over <==> exists k | 0 <= k < |s.games| :: s.games[k].count > limit
      invariant pi <= fuel
      decreases fuel - pi
    {
      if n == 0 {
        return Aborted;
      }
      TrimPass(s, Fun(pi, n), target, Pick(picks, pi), games0, gpp0);
      pi := pi + 1;
      over := TooManyPlayers(s.games, limit);
    }
    r := if over then OutOfFuel else Built;
  }

  /* ------------------------------------------------- create_base_sched2 */

  /** `create_base_sched2` on a schedule where nobody plays yet (a copy of
      the empty schedule): the round loop over rounds 0, 2, .. up to
      `max_round`, with the draws of `rand_players` per round, then the
      trimming loop with target `total / player_count`, which cannot be
      computed without a positive `player_count` (`Aborted`), then
      `compute_stats` (`st`, `None` when the construction stops before
      it).  Once the round loop is through, `games1`, `rm1` and `gpp1` are
      the schedule it built, in which every round of the loop that has
      games is covered; the trimming then only takes players out of games
      over `players_per_game`, and only from players at `target - 1` games
      or more.  A built schedule has no game over `players_per_game`. */
  method CreateBaseSched2(s: Sched, maxRound: int, draws: seq<seq<int>>, picks: seq<nat>, fuel: nat)
    returns (r: Outcome, st: Option<StatsEnd>,
             ghost games1: seq<Game>, ghost rm1: seq<nat>, ghost gpp1: seq<int>, target: int)
    requires s.Valid() && s.variant != Y2014
    requires forall r', q: nat | 0 <= r' < |s.roundMask| :: !TestBit(s.roundMask[r'], q)
    modifies s`games, s`roundMask, s`gamesPerPlayer, s.together, s`stats
    ensures s.Valid()
    ensures r != Aborted ==>
              && Extends(old(s.games), old(s.roundMask), old(s.gamesPerPlayer), games1, rm1, gpp1)
              && CoveredBelow(games1, rm1, if maxRound < 0 then 0 else maxRound + 1, |s.roster|)
              && PerPlayerTarget(s.variant, |s.games|, s.roster) == Some(target)
              && Trimmed(games1, gpp1, s.games, s.gamesPerPlayer, PlayersPerGame(s.variant), target)
              && (r.Built? <==> forall k | 0 <= k < |s.games| :: s.games[k].count <= PlayersPerGame(s.variant))
    ensures r.Built? ==> PlayerCount(s.roster) > 0
    ensures st.Some? <==> r.Built?
    ensures st.Some? ==> (st.value == Computed <==> StatsComputable(s.variant, |s.roster|, s.games))
    ensures st == Some(Computed) ==> s.stats == Summary(s.variant, s.together, s.gamesPerPlayer, s.games, old(s.stats))
    ensures st != Some(Computed) ==> s.stats == old(s.stats)
  {
    st := None;
    target := 0;
    r := PlayRounds(s, maxRound, draws);
    games1, rm1, gpp1 := s.games, s.roundMask, s.gamesPerPlayer;
    if r != Built {
      return;
    }
    var t := PerPlayerTarget(s.variant, |s.games|, s.roster);
    if t.None? {
      return Aborted, st, games1, rm1, gpp1, target;
    }
    target := t.value;
    r := Trim(s, target, picks, fuel);
    if r.Built? {
      var end := ComputeStats(s);
      st := Some(end);
    }
  }
}
