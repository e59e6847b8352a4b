/** The schedule (`struct Sched`): its games, the per-round masks of busy
    players, `games_per_player` and the `games_together` pair matrix, with
    the two mutators that keep them in step and `copy_sched`. */
module Schedule {
  import opened Bits
  import opened Model

  /** Every game's own bookkeeping is consistent and its round exists. */
  ghost predicate GamesOk(v: Variant, roster: seq<Player>, games: seq<Game>, rounds: nat)
  {
    forall k | 0 <= k < |games| :: GameOk(v, roster, games[k]) && games[k].round < rounds
  }

  /** Bit `q` of `players_mask_per_round[r]` is set exactly when `q` plays a
      game of round `r`. */
  ghost predicate RoundMasksOk(games: seq<Game>, roundMask: seq<nat>)
  {
    forall r | 0 <= r < |roundMask| ::
      IsWord(roundMask[r]) && forall q: nat :: TestBit(roundMask[r], q) == (Count(games, InRound(r, q)) > 0)
  }

  /** No player is in two games of the same round. */
  ghost predicate OneGamePerRound(games: seq<Game>)
  {
    forall r: nat, q: nat :: Count(games, InRound(r, q)) <= 1
  }

  /** `games_per_player[q]` is the number of games `q` plays. */
  ghost predicate PlayerCountsOk(games: seq<Game>, gamesPerPlayer: seq<int>)
  {
    forall q | 0 <= q < |gamesPerPlayer| :: gamesPerPlayer[q] == Count(games, HasPlayer(q))
  }

  /** The schedule invariant, apart from the pair matrix. */
  ghost predicate Consistent(v: Variant, roster: seq<Player>, games: seq<Game>,
                             roundMask: seq<nat>, gamesPerPlayer: seq<int>)
  {
    && |roster| <= WordBits && |gamesPerPlayer| == |roster|
    && GamesOk(v, roster, games, |roundMask|)
    && RoundMasksOk(games, roundMask)
    && OneGamePerRound(games)
    && PlayerCountsOk(games, gamesPerPlayer)
  }

  /** The state after an add that passed the source's three assertions is
      consistent again, and each pair count grows by the add loop's delta. */
  lemma JoinKeepsConsistent(v: Variant, roster: seq<Player>, games: seq<Game>,
                            roundMask: seq<nat>, gpp: seq<int>, gi: nat, p: nat)
    requires Consistent(v, roster, games, roundMask, gpp)
    requires gi < |games| && p < |roster|
    requires CanJoin(games[gi], p) && !TestBit(roundMask[games[gi].round], p)
    ensures var r := games[gi].round;
            var games' := games[gi := Joined(v, roster, games[gi], p)];
            && Consistent(v, roster, games', roundMask[r := SetBit(roundMask[r], p)], gpp[p := gpp[p] + 1])
            && (forall i: nat, j: nat | i != j ::
                  Count(games', HasPair(i, j)) == Count(games, HasPair(i, j)) + PairDelta(games'[gi].players, p, i, j))
  {
    var g := games[gi];
    var r := g.round;
    var g' := Joined(v, roster, g, p);
    var games' := games[gi := g'];
    var roundMask' := roundMask[r := SetBit(roundMask[r], p)];
    var gpp' := gpp[p := gpp[p] + 1];
    JoinedOk(v, roster, g, p);
    assert GamesOk(v, roster, games', |roundMask'|);
    forall r0: nat, q: nat ensures Count(games', InRound(r0, q)) == Count(games, InRound(r0, q)) + (if r0 == r && q == p then 1 else 0) {
      CountUpdate(games, gi, g', InRound(r0, q));
    }
    assert Count(games, InRound(r, p)) == 0;
    assert RoundMasksOk(games', roundMask');
    assert OneGamePerRound(games');
    forall q | 0 <= q < |gpp'| ensures gpp'[q] == Count(games', HasPlayer(q)) {
      CountUpdate(games, gi, g', HasPlayer(q));
    }
    forall i: nat, j: nat | i != j
      ensures Count(games', HasPair(i, j)) == Count(games, HasPair(i, j)) + PairDelta(g'.players, p, i, j)
    {
      CountUpdate(games, gi, g', HasPair(i, j));
      DistinctOccurrences(g'.players, i);
      DistinctOccurrences(g'.players, j);
    }
  }

  /** The state after a remove that passed the source's assertions is
      consistent again, and each pair count shrinks by the remove loop's
      delta over the list that no longer holds the player. */
  lemma LeaveKeepsConsistent(v: Variant, roster: seq<Player>, games: seq<Game>,
                             roundMask: seq<nat>, gpp: seq<int>, gi: nat, p: nat)
    requires Consistent(v, roster, games, roundMask, gpp)
    requires gi < |games| && p < |roster|
    requires TestBit(games[gi].mask, p)
    ensures var r := games[gi].round;
            var games' := games[gi := Left(v, roster, games[gi], p)];
            && TestBit(roundMask[r], p)
            && Consistent(v, roster, games', roundMask[r := ClearBit(roundMask[r], p)], gpp[p := gpp[p] - 1])
            && (forall i: nat, j: nat | i != j ::
                  Count(games', HasPair(i, j)) == Count(games, HasPair(i, j)) - PairDelta(games'[gi].players, p, i, j))
  {
    var g := games[gi];
    var r := g.round;
    var g' := Left(v, roster, g, p);
    var games' := games[gi := g'];
    var roundMask' := roundMask[r := ClearBit(roundMask[r], p)];
    var gpp' := gpp[p := gpp[p] - 1];
    LeftOk(v, roster, g, p);
    DistinctRemove(g.players, p);
    RemoveFirstMembers(g.players, p);
    assert GamesOk(v, roster, games', |roundMask'|);
    forall r0: nat, q: nat ensures Count(games', InRound(r0, q)) == Count(games, InRound(r0, q)) - (if r0 == r && q == p then 1 else 0) {
      CountUpdate(games, gi, g', InRound(r0, q));
    }
    CountUpdate(games, gi, g', InRound(r, p));
    assert Count(games, InRound(r, p)) == 1;
    assert RoundMasksOk(games', roundMask');
    assert OneGamePerRound(games');
    forall q | 0 <= q < |gpp'| ensures gpp'[q] == Count(games', HasPlayer(q)) {
      CountUpdate(games, gi, g', HasPlayer(q));
    }
    forall i: nat, j: nat | i != j
      ensures Count(games', HasPair(i, j)) == Count(games, HasPair(i, j)) - PairDelta(g'.players, p, i, j)
    {
      CountUpdate(games, gi, g', HasPair(i, j));
      DistinctOccurrences(g'.players, i);
      DistinctOccurrences(g'.players, j);
    }
  }

  /** Appending a game without players keeps the state consistent and
      changes no count. */
  lemma PushBlankKeepsConsistent(v: Variant, roster: seq<Player>, games: seq<Game>,
                                 roundMask: seq<nat>, gpp: seq<int>, g: Game)
    requires Consistent(v, roster, games, roundMask, gpp)
    requires GameOk(v, roster, g) && g.round < |roundMask|
    ensures Consistent(v, roster, games + [Blank(g)], roundMask, gpp)
    ensures forall k: Query :: Count(games + [Blank(g)], k) == Count(games, k)
  {
    var games' := games + [Blank(g)];
    forall k: Query ensures Count(games', k) == Count(games, k) {
      CountAppend(games, Blank(g), k);
    }
    assert GameOk(v, roster, Blank(g));
    assert GamesOk(v, roster, games', |roundMask|);
  }

  /** Two consistent states over the same games have the same round masks
      and the same `games_per_player`. */
  lemma ConsistentDetermined(v: Variant, roster: seq<Player>, games: seq<Game>,
                             rm1: seq<nat>, gpp1: seq<int>, rm2: seq<nat>, gpp2: seq<int>)
    requires Consistent(v, roster, games, rm1, gpp1)
    requires Consistent(v, roster, games, rm2, gpp2)
    requires |rm1| == |rm2|
    ensures rm1 == rm2 && gpp1 == gpp2
  {
    forall r | 0 <= r < |rm1| ensures rm1[r] == rm2[r] {
      BitsExt(rm1[r], rm2[r]);
    }
  }

  /** A consistent game is determined by its round, unavailability and
      players list. */
  lemma GameDetermined(v: Variant, roster: seq<Player>, g1: Game, g2: Game)
    requires GameOk(v, roster, g1) && GameOk(v, roster, g2)
    requires g1.round == g2.round && g1.unavailable == g2.unavailable && g1.players == g2.players
    ensures g1 == g2
  {
    BitsExt(g1.mask, g2.mask);
    assert Aggregate(g1, Score) == Aggregate(g2, Score);
    assert Aggregate(g1, Ledare) == Aggregate(g2, Ledare);
    assert Aggregate(g1, Goalkeeper) == Aggregate(g2, Goalkeeper);
    assert Aggregate(g1, CountAs) == Aggregate(g2, CountAs);
  }

  /** `players_mask_per_round` for a list of games read from file: one zero
      mask per round up to the highest round. */
  function RoundsOf(games: seq<Game>): (r: nat)
    ensures forall k | 0 <= k < |games| :: games[k].round < r
  {
    if games == [] then 0
    else
      var rest := RoundsOf(games[..|games| - 1]);
      if games[|games| - 1].round < rest then rest else games[|games| - 1].round + 1
  }

  class Sched {
    const variant: Variant
    /** The global `players` vector; a player's `index` is its position. */
    const roster: seq<Player>
    var games: seq<Game>
    /** `players_mask_per_round`. */
    var roundMask: seq<nat>
    /** `stats.games_per_player`. */
    var gamesPerPlayer: seq<int>
    /** `stats.games_together`, an N x N matrix. */
    const together: array2<int>
    /** The remaining fields of `stats`. */
    var stats: Stats

    ghost predicate PairsMatch()
      reads this`games, together
    {
      && together.Length0 == |roster| && together.Length1 == |roster|
      && forall i, j | 0 <= i < |roster| && 0 <= j < |roster| && i != j ::
           together[i, j] == Count(games, HasPair(i, j))
    }

    /** Every diagonal cell of the pair matrix is twice the player's games. */
    ghost predicate DiagonalDoubled()
      reads this`gamesPerPlayer, together
    {
      && together.Length0 == |roster| && together.Length1 == |roster| && |gamesPerPlayer| == |roster|
      && forall i | 0 <= i < |roster| :: together[i, i] == 2 * gamesPerPlayer[i]
    }

    ghost predicate Valid()
      reads this`games, this`roundMask, this`gamesPerPlayer, together
    {
      Consistent(variant, roster, games, roundMask, gamesPerPlayer) && PairsMatch()
    }

    /** The pair matrix is symmetric off the diagonal. */
    lemma Symmetric(i: nat, j: nat)
      requires Valid() && i < |roster| && j < |roster| && i != j
      ensures together[i, j] == together[j, i]
    {
      assert forall g: Game :: Holds(HasPair(i, j), g) == Holds(HasPair(j, i), g);
      CountSymmetric(games, i, j);
    }

    /** `create_empty_sched`: the games read from file, each without
        players, one empty mask per round, no games per player and a zero
        pair matrix. */
    constructor Empty(v: Variant, players: seq<Player>, fileGames: seq<Game>)
      requires |players| <= WordBits
      requires forall k | 0 <= k < |fileGames| :: IsWord(fileGames[k].unavailable)
      requires v == Y2014 ==> forall k | 0 <= k < |fileGames| :: fileGames[k].unavailable == 0
      ensures variant == v && roster == players
      ensures |games| == |fileGames|
      ensures forall k | 0 <= k < |games| :: games[k] == Blank(fileGames[k])
      ensures |roundMask| == RoundsOf(fileGames) && forall r | 0 <= r < |roundMask| :: roundMask[r] == 0
      ensures gamesPerPlayer == seq(|players|, _ => 0)
      ensures fresh(together) && together.Length0 == |players| && together.Length1 == |players|
      ensures forall i, j | 0 <= i < |players| && 0 <= j < |players| :: together[i, j] == 0
      ensures Valid()
    {
      variant := v;
      roster := players;
      games := seq(|fileGames|, k requires 0 <= k < |fileGames| => Blank(fileGames[k]));
      roundMask := seq(RoundsOf(fileGames), _ => 0);
      gamesPerPlayer := seq(|players|, _ => 0);
      together := new int[|players|, |players|]((_, _) => 0);
      stats := NewStats();
      new;
      EmptyConsistent(variant, roster, fileGames, games, roundMask, gamesPerPlayer);
    }

    /** The games, masks and counts `create_empty_sched` builds are
        consistent, and every count over them is zero. */
    static lemma EmptyConsistent(v: Variant, roster: seq<Player>, fileGames: seq<Game>,
                                 games: seq<Game>, roundMask: seq<nat>, gpp: seq<int>)
      requires |roster| <= WordBits && gpp == seq(|roster|, _ => 0)
      requires forall k | 0 <= k < |fileGames| :: IsWord(fileGames[k].unavailable)
      requires v == Y2014 ==> forall k | 0 <= k < |fileGames| :: fileGames[k].unavailable == 0
      requires |games| == |fileGames| && forall k | 0 <= k < |games| :: games[k] == Blank(fileGames[k])
      requires roundMask == seq(RoundsOf(fileGames), _ => 0)
      ensures Consistent(v, roster, games, roundMask, gpp)
      ensures forall k: Query :: Count(games, k) == 0
    {
      forall k: Query ensures Count(games, k) == 0 {
        CountNone(games, k);
      }
      ZeroMasks(games, roundMask);
      BlanksOk(v, roster, fileGames, games, |roundMask|);
    }

    static lemma ZeroMasks(games: seq<Game>, roundMask: seq<nat>)
      requires forall r | 0 <= r < |roundMask| :: roundMask[r] == 0
      requires forall k: Query :: Count(games, k) == 0
      ensures RoundMasksOk(games, roundMask) && OneGamePerRound(games)
    {
      forall r | 0 <= r < |roundMask| ensures IsWord(roundMask[r]) && forall q: nat :: !TestBit(roundMask[r], q) {
        forall q: nat ensures !TestBit(roundMask[r], q) {
          ZeroBits(q);
        }
      }
    }

    static lemma BlanksOk(v: Variant, roster: seq<Player>, fileGames: seq<Game>, games: seq<Game>, rounds: nat)
      requires forall k | 0 <= k < |fileGames| :: IsWord(fileGames[k].unavailable)
      requires v == Y2014 ==> forall k | 0 <= k < |fileGames| :: fileGames[k].unavailable == 0
      requires |games| == |fileGames| && forall k | 0 <= k < |games| :: games[k] == Blank(fileGames[k])
      requires rounds == RoundsOf(fileGames)
      ensures GamesOk(v, roster, games, rounds)
    {
      forall k | 0 <= k < |games| ensures GameOk(v, roster, games[k]) && games[k].round < rounds {
        var g := games[k];
        assert g.mask == 0;
        assert forall f: Field :: Total(v, roster, g.players, f) == 0;
      }
    }

    /** `copy_sched`: a fresh schedule with copies of `s`'s games, filled by
        adding every player of every game in order.  The copy has the same
        games, masks and games per player and the same pair counts off the
        diagonal; each diagonal cell is twice the player's games, since every
        add counts the player twice with itself; the statistics start
        afresh. */
    constructor Copy(s: Sched)
      requires s.Valid()
      ensures variant == s.variant && roster == s.roster
      ensures games == s.games && roundMask == s.roundMask && gamesPerPlayer == s.gamesPerPlayer
      ensures fresh(together) && together.Length0 == |roster| && together.Length1 == |roster|
      ensures forall i, j | 0 <= i < |roster| && 0 <= j < |roster| && i != j :: together[i, j] == s.together[i, j]
      ensures forall i | 0 <= i < |roster| :: together[i, i] == 2 * gamesPerPlayer[i]
      ensures stats == NewStats()
      ensures Valid()
    {
      variant := s.variant;
      roster := s.roster;
      games := [];
      roundMask := seq(|s.roundMask|, _ => 0);
      gamesPerPlayer := seq(|s.roster|, _ => 0);
      together := new int[|s.roster|, |s.roster|]((_, _) => 0);
      stats := NewStats();
      new;
      ZeroMasks(games, roundMask);
      var src := s.games;
      for k := 0 to |src|
        invariant Valid()
        invariant |roundMask| == |s.roundMask| && stats == NewStats()
        invariant games == src[..k]
        invariant DiagonalDoubled()
      {
        CopyNext(s.variant, s.roster, src, s.roundMask, s.gamesPerPlayer, k);
        AppendCopy(src[k]);
        PrefixSnoc(src, k);
      }
      assert src[..|src|] == src;
      ConsistentDetermined(variant, roster, games, roundMask, gamesPerPlayer, s.roundMask, s.gamesPerPlayer);
    }

    /** The next game of a consistent list may be appended to the games
        before it: its players are busy in no earlier game of its round. */
    static lemma CopyNext(v: Variant, roster: seq<Player>, src: seq<Game>, roundMask: seq<nat>, gpp: seq<int>, k: nat)
      requires Consistent(v, roster, src, roundMask, gpp) && k < |src|
      ensures GameOk(v, roster, src[k]) && src[k].round < |roundMask|
      ensures forall q | q in src[k].players :: Count(src[..k], InRound(src[k].round, q)) == 0
    {
      forall q | q in src[k].players ensures Count(src[..k], InRound(src[k].round, q)) == 0 {
        CountPrefix(src, k, InRound(src[k].round, q));
      }
    }

    /** One step of `copy_sched`: push a `copy_game` of `g` and add its
        players in order; none of them may be busy in `g`'s round yet. */
    method AppendCopy(g: Game)
      requires Valid() && GameOk(variant, roster, g) && g.round < |roundMask|
      requires forall q | q in g.players :: Count(games, InRound(g.round, q)) == 0
      modifies this`games, this`roundMask, this`gamesPerPlayer, together
      ensures Valid()
      ensures games == old(games) + [g] && |roundMask| == |old(roundMask)|
      ensures old(DiagonalDoubled()) ==> DiagonalDoubled()
    {
      PushBlankKeepsConsistent(variant, roster, games, roundMask, gamesPerPlayer, g);
      ghost var before := games;
      ghost var doubled := DiagonalDoubled();
      games := games + [Blank(g)];
      var k := |games| - 1;
      var ps := g.players;
      for m := 0 to |ps|
        invariant Valid()
        invariant |roundMask| == |old(roundMask)|
        invariant |games| == k + 1 && games[..k] == before
        invariant games[k].round == g.round && games[k].unavailable == g.unavailable
        invariant games[k].players == ps[..m]
        invariant doubled ==> DiagonalDoubled()
      {
        var p := ps[m];
        CopyStep(variant, roster, games, roundMask, gamesPerPlayer, g, m);
        AddPlayerToGame(k, p);
        PrefixSnoc(ps, m);
        assert games[..k] == before;
      }
      assert ps[..|ps|] == ps;
      GameDetermined(variant, roster, games[k], g);
      assert games == before + [g];
    }

    /** The next player of a game being copied passes the assertions of
        `add_player_to_game`. */
    static lemma CopyStep(v: Variant, roster: seq<Player>, games: seq<Game>, roundMask: seq<nat>,
                          gpp: seq<int>, g: Game, m: nat)
      requires Consistent(v, roster, games, roundMask, gpp) && GameOk(v, roster, g)
      requires |games| > 0 && m < |g.players|
      requires forall q | q in g.players :: Count(games[..|games| - 1], InRound(g.round, q)) == 0
      requires games[|games| - 1].round == g.round && games[|games| - 1].unavailable == g.unavailable
      requires games[|games| - 1].players == g.players[..m]
      ensures g.players[m] < |roster|
      ensures CanJoin(games[|games| - 1], g.players[m])
      ensures !TestBit(roundMask[g.round], g.players[m])
    {
      var k := |games| - 1;
      var p := g.players[m];
      assert p !in g.players[..m];
      assert games == games[..k] + [games[k]];
      CountAppend(games[..k], games[k], InRound(g.round, p));
      assert GameOk(v, roster, games[k]);
    }

    /** `add_player_to_game`: the game's totals, players list and mask take
        the player, its round's mask gets its bit, its game count grows by
        one, and each pair cell `(pp, p)` and `(p, pp)` grows by one for
        every `pp` in the game's list, `p` itself included.  The source
        asserts that the player is not yet in the game, not unavailable for
        it and not busy in its round. */
    method AddPlayerToGame(gi: nat, p: nat)
      requires Valid()
      requires gi < |games| && p < |roster|
      requires !TestBit(games[gi].mask, p)
      requires !TestBit(games[gi].unavailable, p)
      requires !TestBit(roundMask[games[gi].round], p)
      modifies this`games, this`roundMask, this`gamesPerPlayer, together
      ensures games == old(games)[gi := Joined(variant, roster, old(games[gi]), p)]
      ensures games[gi].players == old(games[gi].players) + [p]
      ensures roundMask == old(roundMask)[old(games[gi].round) := SetBit(old(roundMask[games[gi].round]), p)]
      ensures gamesPerPlayer == old(gamesPerPlayer)[p := old(gamesPerPlayer[p]) + 1]
      ensures forall i, j | 0 <= i < |roster| && 0 <= j < |roster| ::
                together[i, j] == old(together[i, j]) + PairDelta(games[gi].players, p, i, j)
      ensures old(DiagonalDoubled()) ==> DiagonalDoubled()
      ensures Valid()
    {
      JoinKeepsConsistent(variant, roster, games, roundMask, gamesPerPlayer, gi, p);
      var g := games[gi];
      var r := g.round;
      gamesPerPlayer := gamesPerPlayer[p := gamesPerPlayer[p] + 1];
      games := games[gi := Joined(variant, roster, g, p)];
      roundMask := roundMask[r := SetBit(roundMask[r], p)];
      var ps := games[gi].players;
      CountPairs(together, ps, p, true);
      DiagonalDelta(ps, p);
    }

    /** `remove_player_from_game`: the game's totals give back the player's
        weights, its first occurrence leaves the list, its bits in the game
        and round masks are cleared, its game count drops by one, and each
        pair cell `(pp, p)` and `(p, pp)` drops by one for every `pp` left in
        the list.  The source asserts that the player is in the game and in
        its round's mask. */
    method RemovePlayerFromGame(gi: nat, p: nat)
      requires Valid()
      requires gi < |games| && p < |roster|
      requires TestBit(games[gi].mask, p)
      modifies this`games, this`roundMask, this`gamesPerPlayer, together
      ensures games == old(games)[gi := Left(variant, roster, old(games[gi]), p)]
      ensures forall q: nat :: q in games[gi].players <==> q in old(games[gi].players) && q != p
      ensures roundMask == old(roundMask)[old(games[gi].round) := ClearBit(old(roundMask[games[gi].round]), p)]
      ensures gamesPerPlayer == old(gamesPerPlayer)[p := old(gamesPerPlayer[p]) - 1]
      ensures forall i, j | 0 <= i < |roster| && 0 <= j < |roster| ::
                together[i, j] == old(together[i, j]) - PairDelta(games[gi].players, p, i, j)
      ensures Valid()
    {
      LeaveKeepsConsistent(variant, roster, games, roundMask, gamesPerPlayer, gi, p);
      var g := games[gi];
      var r := g.round;
      LeftOk(variant, roster, g, p);
      games := games[gi := Left(variant, roster, g, p)];
      roundMask := roundMask[r := ClearBit(roundMask[r], p)];
      gamesPerPlayer := gamesPerPlayer[p := gamesPerPlayer[p] - 1];
      var ps := games[gi].players;
      CountPairs(together, ps, p, false);
    }
  }

  /** The `games_together` loop of both mutators: cells `(pp, p)` and
      `(p, pp)` grow by one (`up`) or shrink by one for every `pp` in `ps`. */
  method CountPairs(m: array2<int>, ps: seq<nat>, p: nat, up: bool)
    requires m.Length0 == m.Length1 && p < m.Length0
    requires forall k | 0 <= k < |ps| :: ps[k] < m.Length0
    modifies m
    ensures forall i, j | 0 <= i < m.Length0 && 0 <= j < m.Length1 ::
              m[i, j] == old(m[i, j]) + Signed(up, PairDelta(ps, p, i, j))
  {
    for k := 0 to |ps|
      invariant forall i, j | 0 <= i < m.Length0 && 0 <= j < m.Length1 ::
                  m[i, j] == old(m[i, j]) + Signed(up, PairDelta(ps[..k], p, i, j))
    {
      var pp := ps[k];
      var delta := if up then 1 else -1;
      m[pp, p] := m[pp, p] + delta;
      m[p, pp] := m[p, pp] + delta;
      forall i, j | 0 <= i < m.Length0 && 0 <= j < m.Length1
        ensures m[i, j] == old(m[i, j]) + Signed(up, PairDelta(ps[..k + 1], p, i, j))
      {
        PairDeltaStep(ps, k, p, i, j);
      }
    }
    assert ps[..|ps|] == ps;
  }

  /** `x` when counting up, `-x` when counting down. */
  function Signed(up: bool, x: int): (r: int)
    ensures up ==> r == x
    ensures !up ==> r == -x
  {
    if up then x else -x
  }

  /** On the diagonal, the loop over a list of distinct players moves only
      the cell of `p`, by two when `p` is in the list. */
  lemma DiagonalDelta(ps: seq<nat>, p: nat)
    requires Distinct(ps)
    ensures forall i: nat :: PairDelta(ps, p, i, i) == (if i == p && p in ps then 2 else 0)
  {
    DistinctOccurrences(ps, p);
  }

  lemma PairDeltaStep(ps: seq<nat>, k: nat, p: nat, i: nat, j: nat)
    requires k < |ps|
    ensures PairDelta(ps[..k + 1], p, i, j)
            == PairDelta(ps[..k], p, i, j) + (if i == ps[k] && j == p then 1 else 0) + (if i == p && j == ps[k] then 1 else 0)
  {
    assert ps[..k + 1] == ps[..k] + [ps[k]];
  }

  lemma {:induction false} CountNone(games: seq<Game>, k: Query)
    requires forall n | 0 <= n < |games| :: games[n].players == []
    ensures Count(games, k) == 0
  {
    if games != [] {
      CountNone(games[1..], k);
    }
  }

  lemma {:induction false} CountSymmetric(games: seq<Game>, i: nat, j: nat)
    ensures Count(games, HasPair(i, j)) == Count(games, HasPair(j, i))
  {
    if games != [] {
      CountSymmetric(games[1..], i, j);
    }
  }

  /** A game's count for `k` is positive when one of its games satisfies
      `k`. */
  lemma CountWitness(gs: seq<Game>, n: nat, k: Query)
    requires n < |gs| && Holds(k, gs[n])
    ensures Count(gs, k) > 0
  {
    CountPrefix(gs, n, k);
  }

  /** A positive count has a game that satisfies `k`. */
  lemma {:induction false} CountFound(gs: seq<Game>, k: Query) returns (n: nat)
    requires Count(gs, k) > 0
    ensures n < |gs| && Holds(k, gs[n])
  {
    if Holds(k, gs[0]) {
      n := 0;
    } else {
      n := CountFound(gs[1..], k);
      n := n + 1;
    }
  }

  /** A player in a game is busy in its round. */
  lemma InGameBusy(s: Sched, k: nat, q: nat)
    requires s.Valid() && k < |s.games| && TestBit(s.games[k].mask, q)
    ensures q in s.games[k].players
    ensures TestBit(s.roundMask[s.games[k].round], q)
  {
    assert GameOk(s.variant, s.roster, s.games[k]);
    CountWitness(s.games, k, InRound(s.games[k].round, q));
  }

  /** Two players in one game have played together. */
  lemma SameGameMet(s: Sched, k: nat, a: nat, b: nat)
    requires s.Valid() && k < |s.games| && a < |s.roster| && b < |s.roster| && a != b
    requires TestBit(s.games[k].mask, a) && TestBit(s.games[k].mask, b)
    ensures s.together[a, b] > 0
  {
    assert GameOk(s.variant, s.roster, s.games[k]);
    CountWitness(s.games, k, HasPair(a, b));
  }
}
