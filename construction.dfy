/** The construction heuristics that build a first schedule:
    `create_base_sched` of HT15 and VT15 (each player up to its target,
    then each game up to `players_per_game`), the round-robin
    `create_base_sched` of 2014, and `create_base_sched2` of HT15 and VT15
    (one round at a time, copied to the next round, then trimmed).  A
    failing `assert`, an index past the end of a vector or a division by
    zero ends the program; the model reports it as `Aborted` and leaves the
    schedule valid. */
module Construction {
  import opened CArith
  import opened Bits
  import opened Model
  import opened Schedule
  import opened Selection
  import opened Statistics

  /** How a construction ended. */
  datatype Outcome = Built | Aborted | OutOfFuel

  /* ------------------------------------------------------- the checked add */

  /** One successful add of `p` to game `gi`, on the values of the games,
      the round masks and the game counts. */
  ghost predicate Step(games: seq<Game>, rm: seq<nat>, gpp: seq<int>,
                       games': seq<Game>, rm': seq<nat>, gpp': seq<int>, gi: nat, p: nat)
  {
    && gi < |games| && |games'| == |games| && p < |gpp| && p < WordBits
    && games[gi].round < |rm| && |rm'| == |rm| && |gpp'| == |gpp|
    && games'[gi].round == games[gi].round && games'[gi].unavailable == games[gi].unavailable
    && games'[gi].mask == SetBit(games[gi].mask, p)
    && (forall k | 0 <= k < |games| && k != gi :: games'[k] == games[k])
    && rm' == rm[games[gi].round := SetBit(rm[games[gi].round], p)]
    && gpp' == gpp[p := gpp[p] + 1]
  }

  /** The games, masks and counts only grow: every game keeps its round,
      its unavailability and its players, every busy bit stays set and no
      game count drops. */
  ghost predicate Extends(games: seq<Game>, rm: seq<nat>, gpp: seq<int>,
                          games': seq<Game>, rm': seq<nat>, gpp': seq<int>)
  {
    && |games'| == |games| && |rm'| == |rm| && |gpp'| == |gpp|
    && (forall k | 0 <= k < |games| ::
          && games'[k].round == games[k].round && games'[k].unavailable == games[k].unavailable
          && forall q: nat :: TestBit(games[k].mask, q) ==> TestBit(games'[k].mask, q))
    && (forall r, q: nat | 0 <= r < |rm| :: TestBit(rm[r], q) ==> TestBit(rm'[r], q))
    && (forall q | 0 <= q < |gpp| :: gpp[q] <= gpp'[q])
  }

  /** A step extends the state, and after it `p` is busy in the round of
      `gi` while nobody else's busy bits change. */
  lemma StepExtends(games: seq<Game>, rm: seq<nat>, gpp: seq<int>,
                    games': seq<Game>, rm': seq<nat>, gpp': seq<int>, gi: nat, p: nat)
    requires Step(games, rm, gpp, games', rm', gpp', gi, p)
    ensures Extends(games, rm, gpp, games', rm', gpp')
    ensures TestBit(rm'[games[gi].round], p)
    ensures forall r, q: nat | 0 <= r < |rm| && q != p :: TestBit(rm'[r], q) == TestBit(rm[r], q)
  {
  }

  lemma ExtendsTrans(games: seq<Game>, rm: seq<nat>, gpp: seq<int>,
                     games': seq<Game>, rm': seq<nat>, gpp': seq<int>,
                     games'': seq<Game>, rm'': seq<nat>, gpp'': seq<int>)
    requires Extends(games, rm, gpp, games', rm', gpp') && Extends(games', rm', gpp', games'', rm'', gpp'')
    ensures Extends(games, rm, gpp, games'', rm'', gpp'')
  {
  }

  /** `add_player_to_game` of a player eligible for the game: its
      assertions hold, the state only grows, the player is now busy in the
      round and nobody else's count or busy bits change. */
  method Add(s: Sched, gi: nat, p: nat)
    requires s.Valid() && gi < |s.games| && p < |s.roster| && Eligible(s.roundMask, s.games[gi], p)
    modifies s`games, s`roundMask, s`gamesPerPlayer, s.together
    ensures s.Valid()
    ensures Step(old(s.games), old(s.roundMask), old(s.gamesPerPlayer), s.games, s.roundMask, s.gamesPerPlayer, gi, p)
    ensures Extends(old(s.games), old(s.roundMask), old(s.gamesPerPlayer), s.games, s.roundMask, s.gamesPerPlayer)
    ensures TestBit(s.roundMask[s.games[gi].round], p)
    ensures forall r, q: nat | 0 <= r < |s.roundMask| && q != p :: TestBit(s.roundMask[r], q) == TestBit(old(s.roundMask[r]), q)
    ensures s.games == old(s.games)[gi := Joined(s.variant, s.roster, old(s.games[gi]), p)]
  {
    if TestBit(s.games[gi].mask, p) {
      InGameBusy(s, gi, p);
    }
    ghost var games1, rm1, gpp1 := s.games, s.roundMask, s.gamesPerPlayer;
    s.AddPlayerToGame(gi, p);
    StepExtends(games1, rm1, gpp1, s.games, s.roundMask, s.gamesPerPlayer, gi, p);
  }

  /** `add_player_to_game` where its assertions decide: the player joins
      when they hold, and otherwise the program aborts, which here leaves
      the schedule as it was and returns false. */
  method TryAdd(s: Sched, gi: nat, p: nat) returns (ok: bool)
    requires s.Valid() && gi < |s.games| && p < |s.roster|
    modifies s`games, s`roundMask, s`gamesPerPlayer, s.together
    ensures s.Valid()
    ensures ok == old(Eligible(s.roundMask, s.games[gi], p))
    ensures ok ==> Step(old(s.games), old(s.roundMask), old(s.gamesPerPlayer), s.games, s.roundMask, s.gamesPerPlayer, gi, p)
    ensures ok ==> Extends(old(s.games), old(s.roundMask), old(s.gamesPerPlayer), s.games, s.roundMask, s.gamesPerPlayer)
    ensures ok ==> s.games == old(s.games)[gi := Joined(s.variant, s.roster, old(s.games[gi]), p)]
    ensures !ok ==> s.games == old(s.games) && s.roundMask == old(s.roundMask) && s.gamesPerPlayer == old(s.gamesPerPlayer)
    ensures !ok ==> unchanged(s.together)
  {
    assert GameOk(s.variant, s.roster, s.games[gi]);
    var g := s.games[gi];
    if TestBit(g.mask, p) || TestBit(g.unavailable, p) || TestBit(s.roundMask[g.round], p) {
      if TestBit(g.mask, p) {
        InGameBusy(s, gi, p);
      }
      return false;
    }
    Add(s, gi, p);
    ok := true;
  }

  /* ------------------------------------------ create_base_sched (HT15, VT15) */

  /** `player_count`: the players' `count_as` summed. */
  function PlayerCount(roster: seq<Player>): int
  {
    if roster == [] then 0 else PlayerCount(roster[..|roster| - 1]) + roster[|roster| - 1].countAs
  }

  /** The per-player target `total / player_count`, `total` being the
      number of games times `players_per_game` (a global of HT15 computed
      when the roster is read, a local of VT15's `create_base_sched`).
      `None` when `player_count` is not positive: zero divides by zero and a
      negative count turns into a huge unsigned divisor. */
  function PerPlayerTarget(v: Variant, nGames: nat, roster: seq<Player>): (r: Option<int>)
    ensures r.Some? <==> PlayerCount(roster) > 0
    ensures r.Some? ==> 0 <= r.value
                        && r.value * PlayerCount(roster) <= nGames * PlayersPerGame(v)
                        && nGames * PlayersPerGame(v) < (r.value + 1) * PlayerCount(roster)
  {
    var cnt := PlayerCount(roster);
    if cnt <= 0 then None
    else
      NatDivBounds(nGames * PlayersPerGame(v), cnt);
      Some(NatDiv(nGames * PlayersPerGame(v), cnt))
  }

  /** Player `q` has reached the target, or no game can take it. */
  ghost predicate Settled(roster: seq<Player>, games: seq<Game>, rm: seq<nat>, gpp: seq<int>, target: int, q: nat)
    requires q < |roster| && q < |gpp|
  {
    || gpp[q] + roster[q].lostGames >= target
    || forall k | 0 <= k < |games| && games[k].round < |rm| :: !Eligible(rm, games[k], q)
  }

  /** Game `k` has `players_per_game` counted players, or no player can
      join it. */
  ghost predicate Filled(v: Variant, roster: seq<Player>, games: seq<Game>, rm: seq<nat>, k: nat)
    requires k < |games| && games[k].round < |rm|
  {
    games[k].count >= PlayersPerGame(v) || forall q | 0 <= q < |roster| :: !Eligible(rm, games[k], q)
  }

  /** Growing the schedule keeps a settled player settled: its count only
      rises and its eligibility only shrinks. */
  lemma SettledStays(roster: seq<Player>, games: seq<Game>, rm: seq<nat>, gpp: seq<int>,
                     games': seq<Game>, rm': seq<nat>, gpp': seq<int>, target: int, q: nat)
    requires Extends(games, rm, gpp, games', rm', gpp') && q < |roster| && q < |gpp|
    requires Settled(roster, games, rm, gpp, target, q)
    ensures Settled(roster, games', rm', gpp', target, q)
  {
    if gpp[q] + roster[q].lostGames < target {
      forall k | 0 <= k < |games'| && games'[k].round < |rm'| ensures !Eligible(rm', games'[k], q) {
        assert !Eligible(rm, games[k], q);
      }
    }
  }

  /** Growing the schedule keeps a filled game filled while its own players
      stay the same. */
  lemma FilledStays(v: Variant, roster: seq<Player>, games: seq<Game>, rm: seq<nat>, gpp: seq<int>,
                    games': seq<Game>, rm': seq<nat>, gpp': seq<int>, k: nat)
    requires Extends(games, rm, gpp, games', rm', gpp') && k < |games| && games[k].round < |rm|
    requires games'[k] == games[k]
    requires Filled(v, roster, games, rm, k)
    ensures Filled(v, roster, games', rm', k)
  {
    if games[k].count < PlayersPerGame(v) {
      forall q | 0 <= q < |roster| ensures !Eligible(rm', games'[k], q) {
        assert !Eligible(rm, games[k], q);
      }
    }
  }

  /** The roster in index order, the `players` vector of `create_base_sched`. */
  function AllPlayers(n: nat): (r: seq<nat>)
    ensures |r| == n && forall i | 0 <= i < n :: r[i] == i
  {
    seq(n, i => i)
  }

  /** The inner loop of the first pass: `get_game` and add until player `p`
      reaches the target or no game takes it. */
  method PlacePlayer(s: Sched, p: nat, target: int)
    requires s.Valid() && p < |s.roster|
    modifies s`games, s`roundMask, s`gamesPerPlayer, s.together
    ensures s.Valid()
    ensures Extends(old(s.games), old(s.roundMask), old(s.gamesPerPlayer), s.games, s.roundMask, s.gamesPerPlayer)
    ensures Settled(s.roster, s.games, s.roundMask, s.gamesPerPlayer, target, p)
    ensures forall q | 0 <= q < |s.roster| && q != p :: s.gamesPerPlayer[q] == old(s.gamesPerPlayer[q])
    ensures forall r, q: nat | 0 <= r < |s.roundMask| && q != p :: TestBit(s.roundMask[r], q) == TestBit(old(s.roundMask[r]), q)
  {
    ghost var games0, rm0, gpp0 := s.games, s.roundMask, s.gamesPerPlayer;
    while CntGames(s, p) < target
      invariant s.Valid() && Extends(games0, rm0, gpp0, s.games, s.roundMask, s.gamesPerPlayer)
      invariant forall q | 0 <= q < |s.roster| && q != p :: s.gamesPerPlayer[q] == gpp0[q]
      invariant forall r, q: nat | 0 <= r < |s.roundMask| && q != p :: TestBit(s.roundMask[r], q) == TestBit(rm0[r], q)
      decreases target - CntGames(s, p)
    {
      var g := GetGame(s, p);
      if g.None? {
        return;
      }
      ghost var games1, rm1, gpp1 := s.games, s.roundMask, s.gamesPerPlayer;
      Add(s, g.value, p);
      ExtendsTrans(games0, rm0, gpp0, games1, rm1, gpp1, s.games, s.roundMask, s.gamesPerPlayer);
    }
  }

  /** The inner loop of the second pass: `get_player` and add until game
      `gi` has `players_per_game` counted players or nobody can join.  Each
      add makes its player busy in the round, so the players eligible for
      the game shrink. */
  method FillGame(s: Sched, gi: nat)
    requires s.Valid() && gi < |s.games|
    modifies s`games, s`roundMask, s`gamesPerPlayer, s.together
    ensures s.Valid()
    ensures Extends(old(s.games), old(s.roundMask), old(s.gamesPerPlayer), s.games, s.roundMask, s.gamesPerPlayer)
    ensures Filled(s.variant, s.roster, s.games, s.roundMask, gi)
    ensures forall k | 0 <= k < |s.games| && k != gi :: s.games[k] == old(s.games[k])
  {
    ghost var games0, rm0, gpp0 := s.games, s.roundMask, s.gamesPerPlayer;
    var players := AllPlayers(|s.roster|);
    while s.games[gi].count < PlayersPerGame(s.variant)
      invariant s.Valid() && Extends(games0, rm0, gpp0, s.games, s.roundMask, s.gamesPerPlayer)
      invariant forall k | 0 <= k < |s.games| && k != gi :: s.games[k] == games0[k]
      decreases set q | 0 <= q < |s.roster| && Eligible(s.roundMask, s.games[gi], q)
    {
      ghost var before := set q | 0 <= q < |s.roster| && Eligible(s.roundMask, s.games[gi], q);
      var pos := GetPlayerFor(s, players, gi);
      if pos.None? {
        forall q | 0 <= q < |s.roster| ensures !Eligible(s.roundMask, s.games[gi], q) {
          assert players[q] == q;
        }
        return;
      }
      var p := players[pos.value];
      ghost var games1, rm1, gpp1 := s.games, s.roundMask, s.gamesPerPlayer;
      Add(s, gi, p);
      ExtendsTrans(games0, rm0, gpp0, games1, rm1, gpp1, s.games, s.roundMask, s.gamesPerPlayer);
      EligibleShrinks(rm1, games1[gi], s.roundMask, s.games[gi], p, |s.roster|);
    }
  }

  /** Placing eligible `p` in a game's round leaves fewer players eligible
      for that game. */
  lemma EligibleShrinks(rm: seq<nat>, g: Game, rm': seq<nat>, g': Game, p: nat, n: nat)
    requires g.round < |rm| == |rm'| && g'.round == g.round && g'.unavailable == g.unavailable
    requires p < n && Eligible(rm, g, p) && TestBit(rm'[g.round], p)
    requires forall q: nat | q != p :: TestBit(rm'[g.round], q) == TestBit(rm[g.round], q)
    ensures (set q | 0 <= q < n && Eligible(rm', g', q)) < (set q | 0 <= q < n && Eligible(rm, g, q))
  {
    var before := set q | 0 <= q < n && Eligible(rm, g, q);
    var after := set q | 0 <= q < n && Eligible(rm', g', q);
    assert p in before && p !in after;
    assert after <= before;
  }

  /** `create_base_sched` of HT15 and VT15: first each player in roster
      order takes the game `get_game` offers until its `cnt_games` reaches
      the target `total / player_count` (`PerPlayerTarget`), then each game
      takes the player `get_player` offers until its count reaches
      `players_per_game`, then `compute_stats`.  Every add meets the
      assertions of `add_player_to_game`, the schedule only grows, every
      player ends at the target or with no game to join, and every game
      ends full or with no player to take.  A counted player total that is
      not positive makes the division for the target fail (`None`, nothing
      changes); a game left without counted players makes `compute_stats`
      divide by zero (`Some` of a fault). */
  method CreateBaseSched(s: Sched) returns (st: Option<StatsEnd>)
    requires s.Valid() && s.variant != Y2014
    modifies s`games, s`roundMask, s`gamesPerPlayer, s.together, s`stats
    ensures s.Valid()
    ensures st.None? <==> PlayerCount(s.roster) <= 0
    ensures st.None? ==>
              && s.games == old(s.games) && s.roundMask == old(s.roundMask)
              && s.gamesPerPlayer == old(s.gamesPerPlayer) && s.stats == old(s.stats)
    ensures st.Some? ==> (st.value == Computed <==> StatsComputable(s.variant, |s.roster|, s.games))
    ensures st == Some(Computed) ==> s.stats == Summary(s.variant, s.together, s.gamesPerPlayer, s.games, old(s.stats))
    ensures st != Some(Computed) ==> s.stats == old(s.stats)
    ensures Extends(old(s.games), old(s.roundMask), old(s.gamesPerPlayer), s.games, s.roundMask, s.gamesPerPlayer)
    ensures st.Some? ==>
              var target := PerPlayerTarget(s.variant, |s.games|, s.roster).value;
              forall q | 0 <= q < |s.roster| :: Settled(s.roster, s.games, s.roundMask, s.gamesPerPlayer, target, q)
    ensures st.Some? ==> forall k | 0 <= k < |s.games| :: Filled(s.variant, s.roster, s.games, s.roundMask, k)
  {
    var t := PerPlayerTarget(s.variant, |s.games|, s.roster);
    if t.None? {
      st := None;
    } else {
      ghost var games0, rm0, gpp0 := s.games, s.roundMask, s.gamesPerPlayer;
      PlaceAll(s, t.value);
      ghost var games1, rm1, gpp1 := s.games, s.roundMask, s.gamesPerPlayer;
      FillAll(s, t.value);
      ExtendsTrans(games0, rm0, gpp0, games1, rm1, gpp1, s.games, s.roundMask, s.gamesPerPlayer);
      var end := ComputeStats(s);
      st := Some(end);
    }
  }

  /** The player loop of `create_base_sched`: every player in turn is
      given games until settled. */
  method PlaceAll(s: Sched, target: int)
    requires s.Valid()
    modifies s`games, s`roundMask, s`gamesPerPlayer, s.together
    ensures s.Valid()
    ensures Extends(old(s.games), old(s.roundMask), old(s.gamesPerPlayer), s.games, s.roundMask, s.gamesPerPlayer)
    ensures forall q | 0 <= q < |s.roster| :: Settled(s.roster, s.games, s.roundMask, s.gamesPerPlayer, target, q)
  {
    ghost var games0, rm0, gpp0 := s.games, s.roundMask, s.gamesPerPlayer;
    for p := 0 to |s.roster|
      invariant s.Valid() && Extends(games0, rm0, gpp0, s.games, s.roundMask, s.gamesPerPlayer)
      invariant forall q | 0 <= q < p :: Settled(s.roster, s.games, s.roundMask, s.gamesPerPlayer, target, q)
    {
      ghost var games1, rm1, gpp1 := s.games, s.roundMask, s.gamesPerPlayer;
      PlacePlayer(s, p, target);
      ExtendsTrans(games0, rm0, gpp0, games1, rm1, gpp1, s.games, s.roundMask, s.gamesPerPlayer);
      forall q | 0 <= q < p ensures Settled(s.roster, s.games, s.roundMask, s.gamesPerPlayer, target, q) {
        SettledStays(s.roster, games1, rm1, gpp1, s.games, s.roundMask, s.gamesPerPlayer, target, q);
      }
    }
  }

  /** The game loop of `create_base_sched`: every game in turn is filled,
      and the players stay settled. */
  method FillAll(s: Sched, target: int)
    requires s.Valid()
    requires forall q | 0 <= q < |s.roster| :: Settled(s.roster, s.games, s.roundMask, s.gamesPerPlayer, target, q)
    modifies s`games, s`roundMask, s`gamesPerPlayer, s.together
    ensures s.Valid()
    ensures Extends(old(s.games), old(s.roundMask), old(s.gamesPerPlayer), s.games, s.roundMask, s.gamesPerPlayer)
    ensures forall q | 0 <= q < |s.roster| :: Settled(s.roster, s.games, s.roundMask, s.gamesPerPlayer, target, q)
    ensures forall k | 0 <= k < |s.games| :: Filled(s.variant, s.roster, s.games, s.roundMask, k)
  {
    ghost var games0, rm0, gpp0 := s.games, s.roundMask, s.gamesPerPlayer;
    for gi := 0 to |s.games|
      invariant s.Valid() && Extends(games0, rm0, gpp0, s.games, s.roundMask, s.gamesPerPlayer)
      invariant forall q | 0 <= q < |s.roster| :: Settled(s.roster, s.games, s.roundMask, s.gamesPerPlayer, target, q)
      invariant forall k | 0 <= k < gi :: Filled(s.variant, s.roster, s.games, s.roundMask, k)
    {
      ghost var games1, rm1, gpp1 := s.games, s.roundMask, s.gamesPerPlayer;
      FillGame(s, gi);
      ExtendsTrans(games0, rm0, gpp0, games1, rm1, gpp1, s.games, s.roundMask, s.gamesPerPlayer);
      forall q | 0 <= q < |s.roster| ensures Settled(s.roster, s.games, s.roundMask, s.gamesPerPlayer, target, q) {
        SettledStays(s.roster, games1, rm1, gpp1, s.games, s.roundMask, s.gamesPerPlayer, target, q);
      }
      forall k | 0 <= k < gi ensures Filled(s.variant, s.roster, s.games, s.roundMask, k) {
        FilledStays(s.variant, s.roster, games1, rm1, gpp1, s.games, s.roundMask, s.gamesPerPlayer, k);
      }
    }
  }

  /* ------------------------------------------------ create_base_sched (2014) */

  /** `size_t` addition: 64 bits, wrapping (a negative `count` wraps). */
  function Wrap64(x: int): (r: nat)
    ensures r < 0x1_0000_0000_0000_0000
    ensures 0 <= x < 0x1_0000_0000_0000_0000 ==> r == x
    decreases if x < 0 then 1 else 0, if x < 0 then -x else x
  {
    if x < 0 then Wrap64(x + 0x1_0000_0000_0000_0000)
    else if x >= 0x1_0000_0000_0000_0000 then Wrap64(x - 0x1_0000_0000_0000_0000)
    else x
  }

  /** The slot counter `i` after the players `ps` were added: their
      `count` summed in `size_t`. */
  function Slots(roster: seq<Player>, ps: seq<nat>): nat
    requires InRoster(roster, ps)
  {
    if ps == [] then 0 else Wrap64(Slots(roster, ps[..|ps| - 1]) + roster[ps[|ps| - 1]].countAs)
  }

  lemma SlotsSnoc(roster: seq<Player>, ps: seq<nat>, p: nat)
    requires InRoster(roster, ps) && p < |roster|
    ensures InRoster(roster, ps + [p])
    ensures Slots(roster, ps + [p]) == Wrap64(Slots(roster, ps) + roster[p].countAs)
  {
    assert (ps + [p])[..|ps|] == ps;
  }

  /** The games after the adds of players `ps[k]` to games `gs[k]`, in
      order. */
  function Apply(v: Variant, roster: seq<Player>, games: seq<Game>, gs: seq<nat>, ps: seq<nat>): (r: seq<Game>)
    requires |gs| == |ps| && |roster| <= WordBits && InRoster(roster, ps)
    requires forall k | 0 <= k < |gs| :: gs[k] < |games|
    ensures |r| == |games|
  {
    if gs == [] then games
    else
      var g := Apply(v, roster, games, gs[..|gs| - 1], ps[..|ps| - 1]);
      g[gs[|gs| - 1] := Joined(v, roster, g[gs[|gs| - 1]], ps[|ps| - 1])]
  }

  lemma ApplySnoc(v: Variant, roster: seq<Player>, games: seq<Game>, gs: seq<nat>, ps: seq<nat>, g: nat, p: nat)
    requires |gs| == |ps| && |roster| <= WordBits && InRoster(roster, ps) && p < |roster|
    requires forall k | 0 <= k < |gs| :: gs[k] < |games|
    requires g < |games|
    ensures InRoster(roster, ps + [p])
    ensures Apply(v, roster, games, gs + [g], ps + [p])
            == Apply(v, roster, games, gs, ps)[g := Joined(v, roster, Apply(v, roster, games, gs, ps)[g], p)]
  {
    assert (gs + [g])[..|gs|] == gs;
    assert (ps + [p])[..|ps|] == ps;
  }

  /** The player list after `j` calls of `get_player` on the roster
      order. */
  function Rot(n: nat, j: nat): (r: seq<nat>)
    requires n > 0
    ensures |r| == n
  {
    Rotations(AllPlayers(n), j)
  }

  /** After `j` calls the list starts at player `j mod n` and runs on in
      roster order. */
  lemma {:induction false} RotIndex(n: nat, j: nat, i: nat)
    requires i < n
    ensures Rot(n, j)[i] == CRem(i + j, n)
  {
    if j > 0 {
      var l := Rot(n, j - 1);
      assert Rot(n, j) == l[1..] + [l[0]];
      if i < n - 1 {
        RotIndex(n, j - 1, i + 1);
      } else {
        RotIndex(n, j - 1, 0);
        CRemShift(j - 1, n);
      }
    }
  }

  /** The game of the `no`-th add of the forward or backward pass that
      starts `start` adds into an aligned round. */
  lemma AlignedAt(start: nat, n: nat, back: bool, no: nat, k: nat)
    requires n > 0 && Aligned(start, n) && no < n
    requires k == if back then start + n + no else start + no
    ensures Fun(k, n) == if back then n - 1 - no else no
  {
    var j := if back then n + no else no;
    CRemAddMultiple(start, j, 2 * n);
    assert Fun(k, n) == Fun(j, n);
  }

  /** Step `start` begins a round of `fun`: from it on, `fun` runs forward
      over the `n` games and then backward, as the two passes of one round
      of the 2014 loop do. */
  ghost predicate Aligned(start: nat, n: nat)
    requires n > 0
  {
    CRem(start, 2 * n) == 0
  }

  lemma AlignedFirst(n: nat)
    requires n > 0
    ensures Aligned(0, n)
  {
  }

  lemma AlignedNext(start: nat, n: nat)
    requires n > 0 && Aligned(start, n)
    ensures Aligned(start + 2 * n, n)
  {
    CRemShift(start, 2 * n);
  }

  /** After the adds `ps` to games `gs` of the 2014 slot loop over `m`
      games: the `k`-th add gave player `k mod N` (the rotation of the
      roster) to game `fun(k, m)` (forward, then backward over the games),
      each add happened with the slot counter below `total`, and `list` and
      `i` are the rotation and the counter that follow. */
  ghost predicate Dealt(roster: seq<Player>, m: nat, gs: seq<nat>, ps: seq<nat>, list: seq<nat>, i: nat, total: nat)
  {
    DealtCore(roster, m, gs, ps, list, i) && SlotsBelow(roster, ps, total)
  }

  /** `Dealt` without the bound on the slot counter. */
  ghost predicate DealtCore(roster: seq<Player>, m: nat, gs: seq<nat>, ps: seq<nat>, list: seq<nat>, i: nat)
  {
    && 0 < |roster| <= WordBits && m > 0
    && ps == Dealing(|roster|, |ps|) && gs == Route(m, |ps|)
    && list == Rot(|roster|, |ps|) && i == Slots(roster, ps)
  }

  /** The players of the first `k` adds of the slot loop over `n` players. */
  function Dealing(n: nat, k: nat): (r: seq<nat>)
    requires n > 0
    ensures |r| == k && forall j | 0 <= j < k :: r[j] < n
  {
    if k == 0 then [] else Dealing(n, k - 1) + [CRem(k - 1, n)]
  }

  /** The games of the first `k` adds of the slot loop over `m` games. */
  function Route(m: nat, k: nat): (r: seq<nat>)
    requires m > 0
    ensures |r| == k && forall j | 0 <= j < k :: r[j] < m
  {
    if k == 0 then [] else Route(m, k - 1) + [Fun(k - 1, m)]
  }

  /** Add `j` of the slot loop takes player `j mod n`: the roster in
      turn. */
  lemma {:induction false} DealingIndex(n: nat, k: nat, j: nat)
    requires n > 0 && j < k
    ensures Dealing(n, k)[j] == CRem(j, n)
  {
    if j < k - 1 {
      DealingIndex(n, k - 1, j);
    }
  }

  /** Add `j` of the slot loop goes to game `fun(j, m)`. */
  lemma {:induction false} RouteIndex(m: nat, k: nat, j: nat)
    requires m > 0 && j < k
    ensures Route(m, k)[j] == Fun(j, m)
  {
    if j < k - 1 {
      RouteIndex(m, k - 1, j);
    }
  }

  /** Each add of `ps` happened with the slot counter below `total`. */
  ghost predicate SlotsBelow(roster: seq<Player>, ps: seq<nat>, total: nat)
    requires InRoster(roster, ps)
  {
    forall j | 0 <= j < |ps| :: Slots(roster, ps[..j]) < total
  }

  lemma DealtFirst(roster: seq<Player>, m: nat, total: nat)
    requires 0 < |roster| <= WordBits && m > 0
    ensures Dealt(roster, m, [], [], AllPlayers(|roster|), 0, total)
  {
  }

  lemma DealtNext(roster: seq<Player>, m: nat, gs: seq<nat>, ps: seq<nat>, list: seq<nat>, i: nat, total: nat, g: nat)
    requires Dealt(roster, m, gs, ps, list, i, total)
    requires i < total && g == Fun(|ps|, m)
    ensures list[0] < |roster| && list[0] == CRem(|ps|, |roster|)
    ensures Dealt(roster, m, gs + [g], ps + [list[0]], list[1..] + [list[0]], Wrap64(i + roster[list[0]].countAs), total)
  {
    DealtCoreNext(roster, m, gs, ps, list, i, g);
    SlotsBelowSnoc(roster, ps, list[0], total);
  }

  lemma DealtCoreNext(roster: seq<Player>, m: nat, gs: seq<nat>, ps: seq<nat>, list: seq<nat>, i: nat, g: nat)
    requires DealtCore(roster, m, gs, ps, list, i) && g == Fun(|ps|, m)
    ensures list[0] < |roster| && list[0] == CRem(|ps|, |roster|)
    ensures DealtCore(roster, m, gs + [g], ps + [list[0]], list[1..] + [list[0]], Wrap64(i + roster[list[0]].countAs))
  {
    DealtRotNext(roster, m, gs, ps, list, i);
    SlotsSnoc(roster, ps, list[0]);
    DealtPatternNext(roster, m, gs, ps, list, i, g);
  }

  lemma DealtRotNext(roster: seq<Player>, m: nat, gs: seq<nat>, ps: seq<nat>, list: seq<nat>, i: nat)
    requires DealtCore(roster, m, gs, ps, list, i)
    ensures list[0] < |roster| && list[0] == CRem(|ps|, |roster|)
    ensures list[1..] + [list[0]] == Rot(|roster|, |ps| + 1)
  {
    RotStep(|roster|, |ps|, list);
  }

  lemma DealtPatternNext(roster: seq<Player>, m: nat, gs: seq<nat>, ps: seq<nat>, list: seq<nat>, i: nat, g: nat)
    requires DealtCore(roster, m, gs, ps, list, i) && g == Fun(|ps|, m)
    requires list[0] == CRem(|ps|, |roster|)
    ensures ps + [list[0]] == Dealing(|roster|, |ps| + 1) && gs + [g] == Route(m, |ps| + 1)
  {
  }

  /** `get_player(list)` takes player `j mod n` and rotates the list. */
  lemma RotStep(n: nat, j: nat, list: seq<nat>)
    requires n > 0 && list == Rot(n, j)
    ensures |list| == n && list[0] == CRem(j, n) && list[1..] + [list[0]] == Rot(n, j + 1)
  {
    RotIndex(n, j, 0);
  }

  /** One more add applied to the games reached by the adds `gs`, `ps`. */
  lemma ApplyStep(v: Variant, roster: seq<Player>, games0: seq<Game>, games: seq<Game>, gs: seq<nat>, ps: seq<nat>, g: nat, p: nat)
    requires |gs| == |ps| && |roster| <= WordBits && InRoster(roster, ps) && p < |roster|
    requires forall k | 0 <= k < |gs| :: gs[k] < |games0|
    requires g < |games0| && games == Apply(v, roster, games0, gs, ps)
    ensures InRoster(roster, ps + [p]) && forall k | 0 <= k < |gs| + 1 :: (gs + [g])[k] < |games0|
    ensures games[g := Joined(v, roster, games[g], p)] == Apply(v, roster, games0, gs + [g], ps + [p])
  {
    ApplySnoc(v, roster, games0, gs, ps, g, p);
  }

  /** Every add, the new one included, happened below `total`. */
  lemma SlotsBelowSnoc(roster: seq<Player>, ps: seq<nat>, p: nat, total: nat)
    requires InRoster(roster, ps) && p < |roster|
    requires SlotsBelow(roster, ps, total)
    requires Slots(roster, ps) < total
    ensures InRoster(roster, ps + [p])
    ensures SlotsBelow(roster, ps + [p], total)
  {
    var ps' := ps + [p];
    forall j | 0 <= j < |ps'| ensures Slots(roster, ps'[..j]) < total {
      if j < |ps| {
        assert ps'[..j] == ps[..j];
      } else {
        assert ps'[..j] == ps;
      }
    }
  }

  /** One call of `get_player` and `add_player_to_game` on game `gi`; `ok`
      is false when the add's assertions fail. */
  method Deal(s: Sched, gi: nat, list: seq<nat>, i: nat) returns (ok: bool, p: nat, list': seq<nat>, i': nat)
    requires s.Valid() && gi < |s.games| && |list| > 0 && list[0] < |s.roster|
    modifies s`games, s`roundMask, s`gamesPerPlayer, s.together
    ensures s.Valid()
    ensures p == list[0] && list' == list[1..] + [list[0]]
    ensures ok == old(Eligible(s.roundMask, s.games[gi], p))
    ensures ok ==> s.games == old(s.games)[gi := Joined(s.variant, s.roster, old(s.games[gi]), p)]
    ensures ok ==> i' == Wrap64(i + s.roster[p].countAs)
    ensures !ok ==> s.games == old(s.games) && s.roundMask == old(s.roundMask) && s.gamesPerPlayer == old(s.gamesPerPlayer)
  {
    p, list' := GetPlayer(list);
    ok := TryAdd(s, gi, p);
    i' := Wrap64(i + s.roster[p].countAs);
  }

  /** The games after the adds `gs`, `ps` of the slot loop. */
  ghost predicate Played(s: Sched, games0: seq<Game>, gs: seq<nat>, ps: seq<nat>, list: seq<nat>, i: nat, total: nat)
    reads s
  {
    && Dealt(s.roster, |games0|, gs, ps, list, i, total)
    && s.games == Apply(s.variant, s.roster, games0, gs, ps)
  }

  /** One add of the slot loop on game `g`, the next one of the pattern:
      `ok` is false, and nothing changes, when the add's assertions fail. */
  method DealNext(s: Sched, g: nat, total: nat, ghost games0: seq<Game>, list: seq<nat>, i: nat, ghost gs: seq<nat>, ghost ps: seq<nat>)
    returns (ok: bool, list': seq<nat>, i': nat, ghost gs': seq<nat>, ghost ps': seq<nat>)
    requires s.Valid() && Played(s, games0, gs, ps, list, i, total)
    requires i < total && g == Fun(|ps|, |games0|)
    modifies s`games, s`roundMask, s`gamesPerPlayer, s.together
    ensures s.Valid()
    ensures ok == old(Eligible(s.roundMask, s.games[g], CRem(|ps|, |s.roster|)))
    ensures ok ==> Played(s, games0, gs', ps', list', i', total) && gs' == gs + [g] && ps' == ps + [CRem(|ps|, |s.roster|)]
    ensures !ok ==> s.games == old(s.games) && s.roundMask == old(s.roundMask) && s.gamesPerPlayer == old(s.gamesPerPlayer)
  {
    DealtNext(s.roster, |games0|, gs, ps, list, i, total, g);
    ApplyStep(s.variant, s.roster, games0, s.games, gs, ps, g, list[0]);
    var p;
    ok, p, list', i' := Deal(s, g, list, i);
    gs', ps' := gs + [g], ps + [p];
  }

  /** One pass of the slot loop over the games, forward (`back` false) or
      backward, while the slot counter is below `total`; `fuel` bounds the
      number of adds. */
  method Pass(s: Sched, back: bool, total: nat, fuel: nat, ghost games0: seq<Game>, ghost start: nat,
              list: seq<nat>, i: nat, ghost gs: seq<nat>, ghost ps: seq<nat>)
    returns (r: Outcome, fuel': nat, list': seq<nat>, i': nat, ghost gs': seq<nat>, ghost ps': seq<nat>)
    requires s.Valid() && Played(s, games0, gs, ps, list, i, total)
    requires Aligned(start, |s.games|) && |ps| == if back then start + |s.games| else start
    modifies s`games, s`roundMask, s`gamesPerPlayer, s.together
    ensures s.Valid() && Played(s, games0, gs', ps', list', i', total)
    ensures |ps| <= |ps'| && fuel' + |ps'| == fuel + |ps|
    ensures r.Built? ==> i' >= total || |ps'| == |ps| + |s.games|
    ensures r.Built? && i < total ==> |ps'| > |ps|
    ensures r.Aborted? ==> i' < total
                           && !Eligible(s.roundMask, s.games[Fun(|ps'|, |s.games|)], CRem(|ps'|, |s.roster|))
    ensures r.OutOfFuel? ==> fuel' == 0 && i' < total
  {
    var n := |s.games|;
    fuel', list', i', gs', ps' := fuel, list, i, gs, ps;
    var no := 0;
    while no < n && i' < total
      invariant s.Valid() && Played(s, games0, gs', ps', list', i', total)
      invariant no <= n && |ps'| == |ps| + no && fuel' + |ps'| == fuel + |ps|
      invariant no == 0 ==> i' == i
    {
      var g := if back then n - 1 - no else no;
      AlignedAt(start, n, back, no, |ps'|);
      if fuel' == 0 {
        return OutOfFuel, fuel', list', i', gs', ps';
      }
      var ok, l, j, gs2, ps2 := DealNext(s, g, total, games0, list', i', gs', ps');
      if !ok {
        return Aborted, fuel', list', i', gs', ps';
      }
      gs', ps', list', i' := gs2, ps2, l, j;
      fuel' := fuel' - 1;
      no := no + 1;
    }
    r := Built;
  }

  /** One round of the slot loop: the forward pass, then, unless the slot
      counter reached `total`, the backward pass. */
  method Round(s: Sched, total: nat, fuel: nat, ghost games0: seq<Game>, ghost start: nat,
               list: seq<nat>, i: nat, ghost gs: seq<nat>, ghost ps: seq<nat>)
    returns (r: Outcome, fuel': nat, list': seq<nat>, i': nat, ghost gs': seq<nat>, ghost ps': seq<nat>)
    requires s.Valid() && Played(s, games0, gs, ps, list, i, total)
    requires Aligned(start, |s.games|) && |ps| == start && i < total
    modifies s`games, s`roundMask, s`gamesPerPlayer, s.together
    ensures s.Valid() && Played(s, games0, gs', ps', list', i', total)
    ensures |ps| <= |ps'| && fuel' + |ps'| == fuel + |ps|
    ensures r.Built? ==> |ps'| > |ps| && (i' >= total || |ps'| == start + 2 * |s.games|)
    ensures r.Aborted? ==> i' < total
                           && !Eligible(s.roundMask, s.games[Fun(|ps'|, |s.games|)], CRem(|ps'|, |s.roster|))
    ensures r.OutOfFuel? ==> fuel' == 0 && i' < total
  {
    r, fuel', list', i', gs', ps' := Pass(s, false, total, fuel, games0, start, list, i, gs, ps);
    if r.Built? && i' < total {
      r, fuel', list', i', gs', ps' := Pass(s, true, total, fuel', games0, start, list', i', gs', ps');
    }
  }

  /** The slot loop of the 2014 `create_base_sched`: a forward and a
      backward pass over the games per round, one rotated player per add,
      until the summed `count` reaches `total`. */
  method DealRounds(s: Sched, total: nat, fuel: nat, ghost games0: seq<Game>)
    returns (r: Outcome, fuel': nat, list: seq<nat>, i: nat, ghost gs: seq<nat>, ghost ps: seq<nat>)
    requires s.Valid() && 0 < |s.roster| && |s.games| > 0 && games0 == s.games
    modifies s`games, s`roundMask, s`gamesPerPlayer, s.together
    ensures s.Valid() && Played(s, games0, gs, ps, list, i, total)
    ensures fuel' + |ps| == fuel
    ensures r.Built? ==> i >= total
    ensures r.Aborted? ==> i < total && !Eligible(s.roundMask, s.games[Fun(|ps|, |s.games|)], CRem(|ps|, |s.roster|))
    ensures r.OutOfFuel? ==> fuel' == 0 && i < total
  {
    var n := |s.games|;
    DealtFirst(s.roster, n, total);
    list, i, gs, ps := AllPlayers(|s.roster|), 0, [], [];
    fuel', r := fuel, Built;
    ghost var start: nat := 0;
    AlignedFirst(n);
    var done := total == 0;
    while !done
      invariant s.Valid() && Played(s, games0, gs, ps, list, i, total) && fuel' + |ps| == fuel
      invariant !done ==> r == Built && i < total && Aligned(start, n) && |ps| == start
      invariant done ==> && (r.Built? ==> i >= total)
                         && (r.Aborted? ==> i < total && !Eligible(s.roundMask, s.games[Fun(|ps|, n)], CRem(|ps|, |s.roster|)))
                         && (r.OutOfFuel? ==> fuel' == 0 && i < total)
      decreases !done, fuel'
    {
      r, fuel', list, i, gs, ps := Round(s, total, fuel', games0, start, list, i, gs, ps);
      if r.Built? && i < total {
        AlignedNext(start, n);
        start := start + 2 * n;
      } else {
        done := true;
      }
    }
  }

  /** After the extra adds `ps` to games `gs` that follow `base` adds of
      the slot loop: the rotation goes on from player `base mod N`, and each
      add went to the game indexed by the extra slot counter before it. */
  ghost predicate Extra(roster: seq<Player>, m: nat, base: nat, gs: seq<nat>, ps: seq<nat>, list: seq<nat>, i: nat)
  {
    && 0 < |roster| <= WordBits && |gs| == |ps| && InRoster(roster, ps) && (forall k | 0 <= k < |gs| :: gs[k] < m)
    && ExtraPattern(roster, m, base, gs, ps)
    && list == Rot(|roster|, base + |ps|) && i == Slots(roster, ps)
  }

  /** The `k`-th extra add gave player `(base + k) mod N` to the game
      indexed by the extra slots before it. */
  ghost predicate ExtraPattern(roster: seq<Player>, m: nat, base: nat, gs: seq<nat>, ps: seq<nat>)
    requires 0 < |roster| && |gs| == |ps| && InRoster(roster, ps)
  {
    ps == [] || (
      var k := |ps| - 1;
      && ExtraPattern(roster, m, base, gs[..k], ps[..k])
      && ps[k] == CRem(base + k, |roster|) && gs[k] == Slots(roster, ps[..k]) && gs[k] < m)
  }

  lemma ExtraNext(roster: seq<Player>, m: nat, base: nat, gs: seq<nat>, ps: seq<nat>, list: seq<nat>, i: nat)
    requires Extra(roster, m, base, gs, ps, list, i) && i < m
    ensures list[0] < |roster| && list[0] == CRem(base + |ps|, |roster|)
    ensures Extra(roster, m, base, gs + [i], ps + [list[0]], list[1..] + [list[0]], Wrap64(i + roster[list[0]].countAs))
  {
    var p := list[0];
    RotStep(|roster|, base + |ps|, list);
    SlotsSnoc(roster, ps, p);
    ExtraPatternSnoc(roster, m, base, gs, ps, p);
  }

  lemma ExtraPatternSnoc(roster: seq<Player>, m: nat, base: nat, gs: seq<nat>, ps: seq<nat>, p: nat)
    requires 0 < |roster| && |gs| == |ps| && InRoster(roster, ps) && ExtraPattern(roster, m, base, gs, ps)
    requires p == CRem(base + |ps|, |roster|) && Slots(roster, ps) < m
    ensures InRoster(roster, ps + [p])
    ensures ExtraPattern(roster, m, base, gs + [Slots(roster, ps)], ps + [p])
  {
    assert (ps + [p])[..|ps|] == ps;
    assert (gs + [Slots(roster, ps)])[..|gs|] == gs;
  }

  /** The games after the extra adds `gs`, `ps`. */
  ghost predicate ExtraPlayed(s: Sched, games1: seq<Game>, base: nat, gs: seq<nat>, ps: seq<nat>, list: seq<nat>, i: nat)
    reads s
  {
    && |games1| == |s.games|
    && Extra(s.roster, |games1|, base, gs, ps, list, i)
    && s.games == Apply(s.variant, s.roster, games1, gs, ps)
  }

  /** One extra add, to game `i`; `ok` is false, and nothing changes, when
      the add's assertions fail. */
  method ExtraStep(s: Sched, ghost games1: seq<Game>, ghost base: nat, list: seq<nat>, i: nat, ghost gs: seq<nat>, ghost ps: seq<nat>)
    returns (ok: bool, list': seq<nat>, i': nat, ghost gs': seq<nat>, ghost ps': seq<nat>)
    requires s.Valid() && ExtraPlayed(s, games1, base, gs, ps, list, i) && i < |s.games|
    modifies s`games, s`roundMask, s`gamesPerPlayer, s.together
    ensures s.Valid()
    ensures ok == old(Eligible(s.roundMask, s.games[i], CRem(base + |ps|, |s.roster|)))
    ensures ok ==> ExtraPlayed(s, games1, base, gs', ps', list', i') && gs' == gs + [i] && ps' == ps + [CRem(base + |ps|, |s.roster|)]
    ensures !ok ==> s.games == old(s.games) && s.roundMask == old(s.roundMask) && s.gamesPerPlayer == old(s.gamesPerPlayer)
                    && !Eligible(s.roundMask, s.games[i], CRem(base + |ps|, |s.roster|))
  {
    ExtraNext(s.roster, |games1|, base, gs, ps, list, i);
    ApplyStep(s.variant, s.roster, games1, s.games, gs, ps, i, list[0]);
    var p;
    ok, p, list', i' := Deal(s, i, list, i);
    gs', ps' := gs + [i], ps + [p];
  }

  /** One turn of the extra loop: out of fuel, or an index past the last
      game, or the add to game `i`. */
  method ExtraTurn(s: Sched, fuel: nat, ghost games1: seq<Game>, ghost base: nat, list: seq<nat>, i: nat, ghost gs: seq<nat>, ghost ps: seq<nat>)
    returns (r: Outcome, fuel': nat, list': seq<nat>, i': nat, ghost gs': seq<nat>, ghost ps': seq<nat>)
    requires s.Valid() && ExtraPlayed(s, games1, base, gs, ps, list, i)
    modifies s`games, s`roundMask, s`gamesPerPlayer, s.together
    ensures s.Valid() && ExtraPlayed(s, games1, base, gs', ps', list', i') && fuel' + |ps'| == fuel + |ps|
    ensures r.Built? ==> |ps'| == |ps| + 1
    ensures !r.Built? ==> i' == i && ps' == ps
    ensures r.Aborted? ==> i' < |s.games| ==> !Eligible(s.roundMask, s.games[i'], CRem(base + |ps'|, |s.roster|))
    ensures r.OutOfFuel? ==> fuel' == 0
  {
    r, fuel', list', i', gs', ps' := Built, fuel, list, i, gs, ps;
    if fuel == 0 {
      r := OutOfFuel;
    } else if i >= |s.games| {
      r := Aborted;
    } else {
      var ok, l, j, gs2, ps2 := ExtraStep(s, games1, base, list, i, gs, ps);
      if ok {
        list', i', gs', ps' := l, j, gs2, ps2;
        fuel' := fuel - 1;
      } else {
        r := Aborted;
      }
    }
  }

  /** The extra loop: `extra` more slots, game `i` taking the next player
      of the rotation while the extra slot counter `i` is below `extra`; a
      counter past the last game indexes outside the vector. */
  method DealExtra(s: Sched, extra: nat, fuel: nat, ghost base: nat, list: seq<nat>)
    returns (r: Outcome, fuel': nat, list': seq<nat>, i: nat, ghost gs: seq<nat>, ghost ps: seq<nat>)
    requires s.Valid() && 0 < |s.roster| && list == Rot(|s.roster|, base)
    modifies s`games, s`roundMask, s`gamesPerPlayer, s.together
    ensures s.Valid() && fuel' + |ps| == fuel
    ensures ExtraPlayed(s, old(s.games), base, gs, ps, list', i)
    ensures r.Built? ==> i >= extra
    ensures r.Aborted? ==> i < extra && (i < |s.games| ==> !Eligible(s.roundMask, s.games[i], CRem(base + |ps|, |s.roster|)))
    ensures r.OutOfFuel? ==> fuel' == 0
  {
    ghost var games1 := s.games;
    list', i := list, 0;
    fuel', gs, ps, r := fuel, [], [], Built;
    while i < extra && r.Built?
      invariant s.Valid() && ExtraPlayed(s, games1, base, gs, ps, list', i) && fuel' + |ps| == fuel
      invariant r.Aborted? ==> i < extra && (i < |s.games| ==> !Eligible(s.roundMask, s.games[i], CRem(base + |ps|, |s.roster|)))
      invariant r.OutOfFuel? ==> fuel' == 0
      decreases fuel', if r.Built? then 1 else 0
    {
      r, fuel', list', i, gs, ps := ExtraTurn(s, fuel', games1, base, list', i, gs, ps);
    }
  }

  /** The slot loop has dealt the players in roster order, round after
      round, to the games forward and then backward until the summed
      `count` reached `total`, taking the games `games0` to `games1`. */
  ghost predicate SlotLoopDone(v: Variant, roster: seq<Player>, games0: seq<Game>, games1: seq<Game>,
                               gs: seq<nat>, ps: seq<nat>, total: nat)
  {
    && 0 < |roster| <= WordBits && |games0| > 0
    && ps == Dealing(|roster|, |ps|) && gs == Route(|games0|, |ps|) && Slots(roster, ps) >= total
    && games1 == Apply(v, roster, games0, gs, ps)
  }

  /** The extra loop has dealt the rest of the rotation after `base` adds to
      the games indexed by the extra slot counter, until that counter
      reached the slots missing to a multiple of the number of players,
      taking the games `games1` to `games`. */
  ghost predicate ExtraLoopDone(v: Variant, roster: seq<Player>, games1: seq<Game>, games: seq<Game>,
                                base: nat, gs: seq<nat>, ps: seq<nat>, total: nat)
  {
    && 0 < |roster| <= WordBits
    && |gs| == |ps| && InRoster(roster, ps) && (forall k | 0 <= k < |gs| :: gs[k] < |games1|)
    && ExtraPattern(roster, |games1|, base, gs, ps)
    && (total % |roster| == 0 ==> ps == [])
    && (total % |roster| != 0 ==> Slots(roster, ps) >= |roster| - total % |roster|)
    && games == Apply(v, roster, games1, gs, ps)
  }

  /** Both loops of the 2014 `create_base_sched` on a schedule with
      players and games. */
  method DealAll(s: Sched, total: nat, fuel: nat)
    returns (r: Outcome, ghost games1: seq<Game>, ghost gs: seq<nat>, ghost ps: seq<nat>, ghost gs2: seq<nat>, ghost ps2: seq<nat>)
    requires s.Valid() && |s.roster| > 0 && |s.games| > 0
    modifies s`games, s`roundMask, s`gamesPerPlayer, s.together
    ensures s.Valid()
    ensures r.Built? ==> SlotLoopDone(s.variant, s.roster, old(s.games), games1, gs, ps, total)
                         && ExtraLoopDone(s.variant, s.roster, games1, s.games, |ps|, gs2, ps2, total)
    ensures r.OutOfFuel? ==> |ps| + |ps2| == fuel
  {
    var cnt := |s.roster|;
    gs2, ps2 := [], [];
    var fuel', list, i;
    r, fuel', list, i, gs, ps := DealRounds(s, total, fuel, s.games);
    games1 := s.games;
    if !r.Built? {
      return;
    }
    if total % cnt != 0 {
      var extra := cnt - total % cnt;
      var list2, i2;
      r, fuel', list2, i2, gs2, ps2 := DealExtra(s, extra, fuel', |ps|, list);
    }
  }

  /** `create_base_sched` of 2014: with `total` = `players_per_game` times
      the number of games, the slot loop and then the extra loop, then
      `compute_stats` (`st`, which is `None` when the construction stops
      before it).  No players ends the program (an empty list or a
      division by zero); `fuel` bounds the number of adds, which the source
      leaves unbounded. */
  method CreateBaseSched2014(s: Sched, fuel: nat)
    returns (r: Outcome, st: Option<StatsEnd>, ghost games1: seq<Game>, ghost gs: seq<nat>, ghost ps: seq<nat>,
             ghost gs2: seq<nat>, ghost ps2: seq<nat>)
    requires s.Valid() && s.variant == Y2014
    modifies s`games, s`roundMask, s`gamesPerPlayer, s.together, s`stats
    ensures s.Valid()
    ensures |s.roster| == 0 ==> r.Aborted? && s.games == old(s.games)
    ensures |old(s.games)| == 0 && |s.roster| > 0 ==> r.Built? && s.games == old(s.games)
    ensures r.Built? && |old(s.games)| > 0 ==>
              var total := PlayersPerGame(s.variant) * |old(s.games)|;
              && SlotLoopDone(s.variant, s.roster, old(s.games), games1, gs, ps, total)
              && ExtraLoopDone(s.variant, s.roster, games1, s.games, |ps|, gs2, ps2, total)
    ensures r.OutOfFuel? ==> |ps| + |ps2| == fuel
    ensures st.Some? <==> r.Built?
    ensures st.Some? ==> (st.value == Computed <==> StatsComputable(s.variant, |s.roster|, s.games))
    ensures st == Some(Computed) ==> s.stats == Summary(s.variant, s.together, s.gamesPerPlayer, s.games, old(s.stats))
    ensures st != Some(Computed) ==> s.stats == old(s.stats)
  {
    var n, cnt := |s.games|, |s.roster|;
    games1, gs, ps, gs2, ps2 := s.games, [], [], [], [];
    st := None;
    if cnt == 0 {
      return Aborted, st, games1, gs, ps, gs2, ps2;
    }
    if n > 0 {
      r, games1, gs, ps, gs2, ps2 := DealAll(s, PlayersPerGame(s.variant) * n, fuel);
    } else {
      r := Built;
    }
    if r.Built? {
      var end := ComputeStats(s);
      st := Some(end);
    }
  }
}
