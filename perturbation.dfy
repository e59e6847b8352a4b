/** `perm0` and `permutate`: the move of the local search.  `perm0` picks
    two players that have never played together, finds a game of each, and
    moves the second into the game of the first in exchange for players of
    that game; every way it can give up is counted in `failed_swap`.  The
    random draws (`rand_bit`, `rand()`, the normal distribution) are
    parameters or a choice among the candidates the code filters. */
module Perturbation {
  import opened CArith
  import opened Bits
  import opened Model
  import opened Schedule

  /** How a call of `perm0` ended.  `NoGame` is the `g0 == NULL || g1 ==
      NULL` exit of HT15; VT15 and 2014 have no such test and dereference
      the null game there, so for them `NoGame` stands for that crash.
      `GamesModZero` is `rand() % s->games.size()` on a schedule without
      games, and `SwapModZero` is the `rand() % cnt` of the `do .. while`
      with an empty `swap` list: both divide by zero and end the program. */
  datatype Perm =
    | NoPair
    | NoGame(p0: nat, p1: nat)
    | GamesModZero
    | SwapModZero(p0: nat, p1: nat, g0: nat, g1: nat)
    | Failed(bucket: nat)
    | Swapped(p0: nat, p1: nat, g0: nat, g1: nat, moved: seq<nat>)

  /** The random draws of one call: `rand_bit` for `p0` and for `p1`,
      `rand()` for the scan starts of `g0` and `g1`, and `dist`, the first
      normal draw of the `do .. while` as the `int` it is truncated to.
      HT15 and VT15 draw `p0`, `g0`, `p1`, `g1` in that order, 2014 draws
      `p0`, `p1`, `g0`, `g1`; each draw is a field of its own, so the
      order does not show in the model. */
  datatype Draws = Draws(p0: nat, g0: nat, p1: nat, g1: nat, dist: int)

  /** `q` is in a pair with a zero cell of the upper triangle. */
  ghost predicate Unpaired(m: array2<int>, n: nat, q: nat)
    reads m
    requires m.Length0 == n && m.Length1 == n
  {
    q < n && exists o | 0 <= o < n :: (q < o && m[q, o] == 0) || (o < q && m[o, q] == 0)
  }

  /** The first loop of `perm0`: the mask of every player of a pair that
      has never played together. */
  method PairCandidates(s: Sched) returns (c: nat)
    requires |s.roster| <= WordBits && s.together.Length0 == |s.roster| && s.together.Length1 == |s.roster|
    ensures IsWord(c)
    ensures forall q: nat :: TestBit(c, q) ==> q < |s.roster| && Unpaired(s.together, |s.roster|, q)
    ensures forall a, b | 0 <= a < b < |s.roster| && s.together[a, b] == 0 :: TestBit(c, a) && TestBit(c, b)
    ensures c == 0 <==> forall a, b | 0 <= a < b < |s.roster| :: s.together[a, b] != 0
  {
    var m := s.together;
    var n := |s.roster|;
    c := 0;
    forall q: nat ensures !TestBit(0, q) { ZeroBits(q); }
    assert IsWord(0) by { assert Pow2(0) == 1; Pow2Mono(0, WordBits); }
    for a := 0 to n
      invariant IsWord(c)
      invariant forall q: nat :: TestBit(c, q) ==> q < n && Unpaired(m, n, q)
      invariant forall x, y | 0 <= x < a && x < y < n && m[x, y] == 0 :: TestBit(c, x) && TestBit(c, y)
    {
      for b := a + 1 to n
        invariant IsWord(c)
        invariant forall q: nat :: TestBit(c, q) ==> q < n && Unpaired(m, n, q)
        invariant forall x, y | 0 <= x < a && x < y < n && m[x, y] == 0 :: TestBit(c, x) && TestBit(c, y)
        invariant forall y | a < y < b && m[a, y] == 0 :: TestBit(c, a) && TestBit(c, y)
      {
        if m[a, b] == 0 {
          c := SetBit(c, a);
          c := SetBit(c, b);
        }
      }
    }
    if c != 0 {
      ghost var q := SomeBit(c, WordBits);
      ghost var o :| 0 <= o < n && ((q < o && m[q, o] == 0) || (o < q && m[o, q] == 0));
    } else {
      forall x, y | 0 <= x < y < n ensures m[x, y] != 0 {
        ZeroBits(x);
      }
    }
  }

  /** The second loop of `perm0`: the mask of the players that have never
      played with `p0`. */
  method Partners(s: Sched, p0: nat) returns (c: nat)
    requires |s.roster| <= WordBits && s.together.Length0 == |s.roster| && s.together.Length1 == |s.roster|
    requires p0 < |s.roster|
    ensures IsWord(c)
    ensures forall q: nat :: TestBit(c, q) <==> q < |s.roster| && q != p0 && s.together[q, p0] == 0
  {
    var m := s.together;
    var n := |s.roster|;
    c := 0;
    forall q: nat ensures !TestBit(0, q) { ZeroBits(q); }
    assert IsWord(0) by { assert Pow2(0) == 1; Pow2Mono(0, WordBits); }
    for x := 0 to n
      invariant IsWord(c)
      invariant forall q: nat :: TestBit(c, q) <==> q < x && q != p0 && m[q, p0] == 0
    {
      if x == p0 {
        continue;
      }
      if m[x, p0] == 0 {
        c := SetBit(c, x);
      }
    }
  }

  /** The game `perm0` looks at in step `i` of a scan from `start`:
      `(start + i) % n`. */
  function Scan(start: nat, i: nat, n: nat): nat
    requires n > 0
  {
    CRem(start + i, n)
  }

  /** The step at which a scan from `start` reaches game `k`. */
  function Offset(start: nat, k: nat, n: nat): (i: nat)
    requires start < n && k < n
    ensures i < n && Scan(start, i, n) == k
  {
    if k >= start then k - start else k + n - start
  }

  /** The scan for `g0` (and `g1`): from game `start`, cyclically, the first
      game whose mask holds `p`; `None` exactly when no game does. */
  method FindGame(s: Sched, p: nat, start: nat) returns (r: Option<nat>)
    requires start < |s.games|
    ensures r.None? <==> forall k | 0 <= k < |s.games| :: !TestBit(s.games[k].mask, p)
    ensures r.Some? ==> && r.value < |s.games| && TestBit(s.games[r.value].mask, p)
                        && forall i | 0 <= i < Offset(start, r.value, |s.games|) ::
                             !TestBit(s.games[Scan(start, i, |s.games|)].mask, p)
  {
    var n := |s.games|;
    for i := 0 to n
      invariant forall j | 0 <= j < i :: !TestBit(s.games[Scan(start, j, n)].mask, p)
    {
      var k := CRem(start + i, n);
      if TestBit(s.games[k].mask, p) {
        assert Offset(start, k, n) == i;
        return Some(k);
      }
    }
    forall k | 0 <= k < n
      ensures !TestBit(s.games[k].mask, p)
    {
      var i := Offset(start, k, n);
    }
    return None;
  }

  /** The `swap` list of `perm0`: the candidates in increasing order; HT15
      and VT15 keep those that count no more than `p1` and are available
      for `g1`. */
  method SwapList(s: Sched, candidates: nat, p1: nat, g1: nat) returns (swap: seq<nat>)
    requires p1 < |s.roster| && g1 < |s.games|
    requires forall q: nat :: TestBit(candidates, q) ==> q < |s.roster|
    ensures forall t, u | 0 <= t < u < |swap| :: swap[t] < swap[u]
    ensures forall q: nat :: q in swap <==> q < WordBits && TestBit(candidates, q) && SwapOk(s, p1, g1, q)
  {
    swap := [];
    for i := 0 to WordBits
      invariant forall t, u | 0 <= t < u < |swap| :: swap[t] < swap[u]
      invariant forall t | 0 <= t < |swap| :: swap[t] < i
      invariant forall q: nat :: q in swap <==> q < i && TestBit(candidates, q) && SwapOk(s, p1, g1, q)
    {
      if TestBit(candidates, i) {
        if s.variant == Y2014 {
          swap := swap + [i];
        } else if s.roster[i].countAs <= s.roster[p1].countAs {
          if !TestBit(s.games[g1].unavailable, i) {
            swap := swap + [i];
          }
        }
      }
    }
  }

  predicate SwapOk(s: Sched, p1: nat, g1: nat, q: nat)
    reads s
    requires p1 < |s.roster| && g1 < |s.games|
  {
    s.variant == Y2014
    || (q < |s.roster| && s.roster[q].countAs <= s.roster[p1].countAs && !TestBit(s.games[g1].unavailable, q))
  }

  /** What the `do .. while` may pick: distinct players of `swap`; one in
      2014; `count` of them when `count` is positive.  Otherwise the loop
      runs once: a negative first draw `dist` picks nobody, any other draw
      at most one player. */
  predicate Picked(v: Variant, p2: seq<nat>, swap: seq<nat>, count: int, dist: int)
  {
    && Distinct(p2)
    && (forall i | 0 <= i < |p2| :: p2[i] in swap)
    && (if v == Y2014 then |p2| == 1
        else if count >= 1 then |p2| == count
        else if dist < 0 then p2 == []
        else |p2| <= 1)
  }

  /** One exchange step: `q` leaves `g0` and joins `g1`, a game of another
      round; its number of games is unchanged. */
  method MoveOne(s: Sched, g0: nat, g1: nat, q: nat)
    requires s.Valid() && g0 < |s.games| && g1 < |s.games| && s.games[g0].round != s.games[g1].round
    requires q < |s.roster| && TestBit(s.games[g0].mask, q)
    requires !TestBit(s.games[g1].mask, q) && !TestBit(s.games[g1].unavailable, q)
    requires !TestBit(s.roundMask[s.games[g1].round], q)
    modifies s`games, s`roundMask, s`gamesPerPlayer, s.together
    ensures s.Valid() && s.gamesPerPlayer == old(s.gamesPerPlayer)
    ensures s.games == old(s.games)[g0 := Left(s.variant, s.roster, old(s.games[g0]), q)]
                                   [g1 := Joined(s.variant, s.roster, old(s.games[g1]), q)]
    ensures var r0 := old(s.games[g0].round);
            var r1 := old(s.games[g1].round);
            s.roundMask == old(s.roundMask)[r0 := ClearBit(old(s.roundMask[r0]), q)]
                                           [r1 := SetBit(old(s.roundMask[r1]), q)]
  {
    ghost var gpp := s.gamesPerPlayer;
    ghost var games1, r1 := s.games[g1], s.games[g1].round;
    ghost var mask1 := s.roundMask[r1];
    s.RemovePlayerFromGame(g0, q);
    assert s.games[g1] == games1 && s.roundMask[r1] == mask1;
    s.AddPlayerToGame(g1, q);
    assert s.gamesPerPlayer == gpp;
  }

  /** The games after the players `ps` of `g0` have left it for `g1`:
      `g1` lists them after its own players, and no other game changes. */
  ghost predicate MovedGames(games: seq<Game>, games': seq<Game>, g0: nat, g1: nat, ps: seq<nat>)
  {
    && GamesKept(games, games', g0, g1)
    && games'[g1].players == games[g1].players + ps
    && Lost(games[g0].mask, games'[g0].mask, ps)
    && Gained(games[g1].mask, games'[g1].mask, ps)
  }

  /** The mask `m'` is `m` without the players `ps`. */
  ghost predicate Lost(m: nat, m': nat, ps: seq<nat>)
  {
    forall q: nat :: TestBit(m', q) <==> TestBit(m, q) && q !in ps
  }

  /** The mask `m'` is `m` with the players `ps` added. */
  ghost predicate Gained(m: nat, m': nat, ps: seq<nat>)
  {
    forall q: nat :: TestBit(m', q) <==> TestBit(m, q) || q in ps
  }

  /** The round masks after the players `ps` have left round `r0` for
      round `r1`: no other round changes. */
  ghost predicate MovedRounds(rm: seq<nat>, rm': seq<nat>, r0: nat, r1: nat, ps: seq<nat>)
  {
    && |rm'| == |rm| && r0 < |rm| && r1 < |rm| && r0 != r1
    && (forall r | 0 <= r < |rm| && r != r0 && r != r1 :: rm'[r] == rm[r])
    && Lost(rm[r0], rm'[r0], ps)
    && Gained(rm[r1], rm'[r1], ps)
  }

  /** The exchange of `ps` from `g0` to `g1`, a game of another round. */
  ghost predicate Moved(games: seq<Game>, rm: seq<nat>, games': seq<Game>, rm': seq<nat>,
                        g0: nat, g1: nat, ps: seq<nat>)
  {
    && MovedGames(games, games', g0, g1, ps)
    && MovedRounds(rm, rm', games[g0].round, games[g1].round, ps)
  }

  /** One more player `q` leaving `g0` for `g1`, as `MoveOne` does it,
      extends `MovedGames` by `q`. */
  lemma MovedGamesStep(v: Variant, roster: seq<Player>, games: seq<Game>, games1: seq<Game>,
                       g0: nat, g1: nat, ps: seq<nat>, q: nat)
    requires MovedGames(games, games1, g0, g1, ps)
    requires q < |roster| && q < WordBits
    ensures MovedGames(games, games1[g0 := Left(v, roster, games1[g0], q)][g1 := Joined(v, roster, games1[g1], q)],
                       g0, g1, ps + [q])
  {
    var l0, j1 := Left(v, roster, games1[g0], q), Joined(v, roster, games1[g1], q);
    var games2 := games1[g0 := l0][g1 := j1];
    assert games2[g0] == l0 && games2[g1] == j1;
    assert GamesKept(games, games2, g0, g1);
    assert j1.players == games[g1].players + (ps + [q]);
    LostBit(games[g0].mask, games1[g0].mask, q, ps);
    GainedBit(games[g1].mask, games1[g1].mask, q, ps);
  }

  /** Clearing `q` in a mask that lost `ps`. */
  lemma LostBit(before: nat, mid: nat, q: nat, ps: seq<nat>)
    requires q < WordBits && Lost(before, mid, ps)
    ensures Lost(before, ClearBit(mid, q), ps + [q])
  {
  }

  /** Setting `q` in a mask that gained `ps`. */
  lemma GainedBit(before: nat, mid: nat, q: nat, ps: seq<nat>)
    requires q < WordBits && Gained(before, mid, ps)
    ensures Gained(before, SetBit(mid, q), ps + [q])
  {
  }

  /** The same for the round masks. */
  lemma MovedRoundsStep(rm: seq<nat>, rm1: seq<nat>, r0: nat, r1: nat, ps: seq<nat>, q: nat)
    requires MovedRounds(rm, rm1, r0, r1, ps)
    requires q < WordBits
    ensures MovedRounds(rm, rm1[r0 := ClearBit(rm1[r0], q)][r1 := SetBit(rm1[r1], q)], r0, r1, ps + [q])
  {
    LostBit(rm[r0], rm1[r0], q, ps);
    GainedBit(rm[r1], rm1[r1], q, ps);
  }

  /** Before any player moves, the exchange of no players holds. */
  lemma MovedNone(games: seq<Game>, rm: seq<nat>, g0: nat, g1: nat)
    requires g0 < |games| && g1 < |games| && games[g0].round != games[g1].round
    requires games[g0].round < |rm| && games[g1].round < |rm|
    ensures Moved(games, rm, games, rm, g0, g1, [])
  {
  }

  /** A player of `g0` not yet moved is still in `g0`, and still free for
      `g1` and its round. */
  lemma MovedReady(games0: seq<Game>, rm0: seq<nat>, games1: seq<Game>, rm1: seq<nat>,
                   g0: nat, g1: nat, ps: seq<nat>, q: nat)
    requires Moved(games0, rm0, games1, rm1, g0, g1, ps) && q !in ps
    requires TestBit(games0[g0].mask, q) && !TestBit(games0[g1].mask, q)
    requires !TestBit(games0[g1].unavailable, q) && !TestBit(rm0[games0[g1].round], q)
    ensures g0 < |games1| && g1 < |games1|
    ensures games1[g0].round == games0[g0].round && games1[g1].round == games0[g1].round
    ensures TestBit(games1[g0].mask, q) && !TestBit(games1[g1].mask, q)
    ensures !TestBit(games1[g1].unavailable, q) && !TestBit(rm1[games1[g1].round], q)
  {
  }

  /** The exchange: each player of `ps` leaves `g0` for `g1`. */
  method MoveAll(s: Sched, g0: nat, g1: nat, ps: seq<nat>)
    requires s.Valid() && g0 < |s.games| && g1 < |s.games| && s.games[g0].round != s.games[g1].round
    requires Distinct(ps)
    requires forall i | 0 <= i < |ps| :: ps[i] < |s.roster| && TestBit(s.games[g0].mask, ps[i])
               && !TestBit(s.games[g1].mask, ps[i]) && !TestBit(s.games[g1].unavailable, ps[i])
               && !TestBit(s.roundMask[s.games[g1].round], ps[i])
    modifies s`games, s`roundMask, s`gamesPerPlayer, s.together
    ensures s.Valid() && s.gamesPerPlayer == old(s.gamesPerPlayer)
    ensures Moved(old(s.games), old(s.roundMask), s.games, s.roundMask, g0, g1, ps)
  {
    ghost var games0, rm0 := s.games, s.roundMask;
    assert GameOk(s.variant, s.roster, s.games[g0]);
    MovedNone(games0, rm0, g0, g1);
    assert ps[..0] == [];
    for i := 0 to |ps|
      invariant s.Valid() && s.gamesPerPlayer == old(s.gamesPerPlayer)
      invariant Moved(games0, rm0, s.games, s.roundMask, g0, g1, ps[..i])
    {
      var q := ps[i];
      PrefixSnoc(ps, i);
      assert q !in ps[..i];
      ghost var games1, rm1 := s.games, s.roundMask;
      MovedReady(games0, rm0, games1, rm1, g0, g1, ps[..i], q);
      MoveOne(s, g0, g1, q);
      MovedGamesStep(s.variant, s.roster, games0, games1, g0, g1, ps[..i], q);
      MovedRoundsStep(rm0, rm1, games0[g0].round, games0[g1].round, ps[..i], q);
    }
    assert ps[..|ps|] == ps;
  }

  /** `failed_swap[b]++` (2014 keeps no such counters). */
  function CountFailure(v: Variant, st: Stats, b: nat): (r: Stats)
    requires b < |st.failedSwap|
    ensures v == Y2014 ==> r == st
    ensures v != Y2014 ==> r == st.(failedSwap := r.failedSwap) && |r.failedSwap| == |st.failedSwap|
    ensures v != Y2014 ==> r.failedSwap[b] == st.failedSwap[b] + 1
    ensures v != Y2014 ==> forall i | 0 <= i < |st.failedSwap| && i != b :: r.failedSwap[i] == st.failedSwap[i]
  {
    if v == Y2014 then st else st.(failedSwap := st.failedSwap[b := st.failedSwap[b] + 1])
  }

  /** The outcome of choosing the two players and their games;
      `Gameless` is the division by zero of `rand() % s->games.size()`. */
  datatype Pick = Nobody | Gameless | Homeless(p0: nat, p1: nat) | Chosen(p0: nat, p1: nat, g0: nat, g1: nat)

  /** The first half of `perm0`: `p0` from a pair that never played
      together, `p1` among those `p0` never played with (the mask `rand_bit`
      draws from is never empty, so its assertion holds), and a game of
      each found by a scan from a random start. */
  method ChoosePair(s: Sched, d: Draws) returns (r: Pick)
    requires s.Valid()
    ensures r.Nobody? <==> forall a, b | 0 <= a < b < |s.roster| :: s.together[a, b] != 0
    ensures r.Gameless? <==> |s.games| == 0 && !r.Nobody?
    ensures r.Homeless? || r.Chosen? ==> r.p0 < |s.roster| && r.p1 < |s.roster| && r.p0 != r.p1
                                         && s.together[r.p0, r.p1] == 0 && s.together[r.p1, r.p0] == 0
    ensures r.Homeless? ==> (forall k | 0 <= k < |s.games| :: !TestBit(s.games[k].mask, r.p0))
                            || (forall k | 0 <= k < |s.games| :: !TestBit(s.games[k].mask, r.p1))
    ensures r.Chosen? ==> r.g0 < |s.games| && r.g1 < |s.games|
                          && TestBit(s.games[r.g0].mask, r.p0) && TestBit(s.games[r.g1].mask, r.p1)
  {
    var n := |s.roster|;
    var c := PairCandidates(s);
    if c == 0 {
      return Nobody;
    }
    if |s.games| == 0 {
      return Gameless;
    }
    var p0 := RandBit(c, d.p0);
    var c2 := Partners(s, p0);
    ghost var o :| 0 <= o < n && ((p0 < o && s.together[p0, o] == 0) || (o < p0 && s.together[o, p0] == 0));
    s.Symmetric(p0, o);
    assert TestBit(c2, o);
    ZeroBits(o);
    var g0 := FindGame(s, p0, CRem(d.g0, |s.games|));
    var p1 := RandBit(c2, d.p1);
    var g1 := FindGame(s, p1, CRem(d.g1, |s.games|));
    s.Symmetric(p0, p1);
    if g0.None? || g1.None? {
      return Homeless(p0, p1);
    }
    return Chosen(p0, p1, g0.value, g1.value);
  }

  /** The games after the exchange of `perm0`: the players `moved` left
      `g0` for `g1` and `p1` left `g1` for `g0`; no other game changes. */
  ghost predicate SwappedGames(games: seq<Game>, games': seq<Game>, g0: nat, g1: nat, p1: nat, moved: seq<nat>)
  {
    && GamesKept(games, games', g0, g1)
    && Traded(games[g0].mask, games'[g0].mask, moved, [p1])
    && Traded(games[g1].mask, games'[g1].mask, [p1], moved)
  }

  /** The mask `m'` is `m` without the players `gone` and with the
      players `came`. */
  ghost predicate Traded(m: nat, m': nat, gone: seq<nat>, came: seq<nat>)
  {
    forall q: nat :: TestBit(m', q) <==> (TestBit(m, q) && q !in gone) || q in came
  }

  /** Every game but `g0` and `g1` is unchanged, and those two keep their
      round and unavailability. */
  ghost predicate GamesKept(games: seq<Game>, games': seq<Game>, g0: nat, g1: nat)
  {
    && |games'| == |games| && g0 < |games| && g1 < |games| && g0 != g1
    && (forall k | 0 <= k < |games| && k != g0 && k != g1 :: games'[k] == games[k])
    && games'[g0].round == games[g0].round && games'[g1].round == games[g1].round
    && games'[g0].unavailable == games[g0].unavailable && games'[g1].unavailable == games[g1].unavailable
  }

  /** The round masks after that exchange between rounds `r0` and `r1`:
      no other round changes. */
  ghost predicate SwappedRounds(rm: seq<nat>, rm': seq<nat>, r0: nat, r1: nat, p1: nat, moved: seq<nat>)
  {
    && |rm'| == |rm| && r0 < |rm| && r1 < |rm| && r0 != r1
    && (forall r | 0 <= r < |rm| && r != r0 && r != r1 :: rm'[r] == rm[r])
    && Traded(rm[r0], rm'[r0], moved, [p1])
    && Traded(rm[r1], rm'[r1], [p1], moved)
  }

  /** The exchange of `perm0`: `p1` was a player of `g1` and not of `g0`,
      the players `moved` were players of `g0`, and exactly they and `p1`
      changed games. */
  ghost predicate Exchanged(games: seq<Game>, rm: seq<nat>, games': seq<Game>, rm': seq<nat>,
                            g0: nat, g1: nat, p1: nat, moved: seq<nat>)
  {
    && g0 < |games| && g1 < |games|
    && TestBit(games[g1].mask, p1) && !TestBit(games[g0].mask, p1)
    && (forall i | 0 <= i < |moved| :: TestBit(games[g0].mask, moved[i]))
    && SwappedGames(games, games', g0, g1, p1, moved)
    && SwappedRounds(rm, rm', games[g0].round, games[g1].round, p1, moved)
  }

  /** `p1` moving back from `g1` to `g0` after `MoveAll` completes the
      exchange of the games. */
  lemma SwappedGamesFrom(v: Variant, roster: seq<Player>, games: seq<Game>, games1: seq<Game>,
                         g0: nat, g1: nat, p1: nat, moved: seq<nat>)
    requires MovedGames(games, games1, g0, g1, moved) && p1 !in moved
    requires p1 < |roster| && p1 < WordBits
    ensures SwappedGames(games, games1[g1 := Left(v, roster, games1[g1], p1)][g0 := Joined(v, roster, games1[g0], p1)],
                         g0, g1, p1, moved)
  {
    var games2 := games1[g1 := Left(v, roster, games1[g1], p1)][g0 := Joined(v, roster, games1[g0], p1)];
    assert GamesKept(games, games2, g0, g1);
    var m0, m1 := games2[g0].mask, games2[g1].mask;
    assert m0 == SetBit(games1[g0].mask, p1) && m1 == ClearBit(games1[g1].mask, p1);
    JoinedBits(games[g0].mask, games1[g0].mask, p1, moved);
    LeftBits(games[g1].mask, games1[g1].mask, p1, moved);
  }

  /** Adding `p1` to a mask that lost `moved`. */
  lemma JoinedBits(before: nat, mid: nat, p1: nat, moved: seq<nat>)
    requires p1 < WordBits && Lost(before, mid, moved)
    ensures Traded(before, SetBit(mid, p1), moved, [p1])
  {
  }

  /** Taking `p1 !in moved` from a mask that gained `moved`. */
  lemma LeftBits(before: nat, mid: nat, p1: nat, moved: seq<nat>)
    requires p1 < WordBits && p1 !in moved && Gained(before, mid, moved)
    ensures Traded(before, ClearBit(mid, p1), [p1], moved)
  {
  }

  /** The same for the round masks. */
  lemma SwappedRoundsFrom(rm: seq<nat>, rm1: seq<nat>, r0: nat, r1: nat, p1: nat, moved: seq<nat>)
    requires MovedRounds(rm, rm1, r0, r1, moved) && p1 !in moved && p1 < WordBits
    ensures SwappedRounds(rm, rm1[r1 := ClearBit(rm1[r1], p1)][r0 := SetBit(rm1[r0], p1)], r0, r1, p1, moved)
  {
    JoinedBits(rm[r0], rm1[r0], p1, moved);
    LeftBits(rm[r1], rm1[r1], p1, moved);
  }

  /** The exchange that ends a successful `perm0`: the players `p2` leave
      `g0` for `g1`, then `p1` leaves `g1` for `g0`. */
  method Exchange(s: Sched, p0: nat, p1: nat, g0: nat, g1: nat, p2: seq<nat>)
    requires s.Valid() && g0 < |s.games| && g1 < |s.games| && s.games[g0].round != s.games[g1].round
    requires p0 < |s.roster| && p1 < |s.roster| && p0 != p1 && p0 !in p2 && Distinct(p2)
    requires TestBit(s.games[g0].mask, p0) && TestBit(s.games[g1].mask, p1)
    requires !TestBit(s.games[g0].mask, p1) && !TestBit(s.games[g0].unavailable, p1)
    requires !TestBit(s.roundMask[s.games[g0].round], p1)
    requires forall i | 0 <= i < |p2| :: p2[i] < |s.roster| && TestBit(s.games[g0].mask, p2[i])
               && !TestBit(s.games[g1].unavailable, p2[i])
               && !TestBit(s.roundMask[s.games[g1].round], p2[i])
    modifies s`games, s`roundMask, s`gamesPerPlayer, s.together
    ensures s.Valid() && s.gamesPerPlayer == old(s.gamesPerPlayer)
    ensures Exchanged(old(s.games), old(s.roundMask), s.games, s.roundMask, g0, g1, p1, p2)
    ensures TestBit(s.games[g0].mask, p0) && s.together[p0, p1] > 0
  {
    forall i | 0 <= i < |p2|
      ensures !TestBit(s.games[g1].mask, p2[i])
    {
      if TestBit(s.games[g1].mask, p2[i]) {
        InGameBusy(s, g1, p2[i]);
      }
    }
    assert p1 !in p2 by {
      assert forall i | 0 <= i < |p2| :: p2[i] != p1;
    }
    ghost var games0, rm0 := s.games, s.roundMask;
    ghost var r0, r1 := s.games[g0].round, s.games[g1].round;
    MoveAll(s, g0, g1, p2);
    ghost var games1, rm1 := s.games, s.roundMask;
    assert TestBit(games1[g0].mask, p0) && TestBit(games1[g1].mask, p1) && !TestBit(games1[g0].mask, p1);
    assert !TestBit(rm1[r0], p1);
    MoveOne(s, g1, g0, p1);
    SwappedGamesFrom(s.variant, s.roster, games0, games1, g0, g1, p1, p2);
    SwappedRoundsFrom(rm0, rm1, r0, r1, p1, p2);
    SameGameMet(s, g0, p0, p1);
  }

  /** The players `do .. while` picks from `swap` are players of `g0`
      other than `p0`, available for `g1` and free in its round. */
  lemma PickedFree(s: Sched, p0: nat, p1: nat, g0: nat, g1: nat, candidates: nat, swap: seq<nat>, p2: seq<nat>)
    requires s.Valid() && p0 < |s.roster| && p1 < |s.roster| && g0 < |s.games| && g1 < |s.games|
    requires candidates == Minus(ClearBit(s.games[g0].mask, p0), s.roundMask[s.games[g1].round])
    requires forall q: nat :: q in swap <==> q < WordBits && TestBit(candidates, q) && SwapOk(s, p1, g1, q)
    requires forall i | 0 <= i < |p2| :: p2[i] in swap
    ensures forall i | 0 <= i < |p2| ::
              && p2[i] < |s.roster| && p2[i] != p0 && TestBit(s.games[g0].mask, p2[i])
              && !TestBit(s.games[g1].unavailable, p2[i]) && !TestBit(s.roundMask[s.games[g1].round], p2[i])
  {
    forall i | 0 <= i < |p2|
      ensures && p2[i] < |s.roster| && p2[i] != p0 && TestBit(s.games[g0].mask, p2[i])
              && !TestBit(s.games[g1].unavailable, p2[i]) && !TestBit(s.roundMask[s.games[g1].round], p2[i])
    {
      var q := p2[i];
      assert q in swap;
      assert TestBit(candidates, q) && SwapOk(s, p1, g1, q);
      assert TestBit(s.games[g0].mask, q);
      InGameBusy(s, g0, q);
      assert GameOk(s.variant, s.roster, s.games[g0]);
      if s.variant == Y2014 {
        assert GameOk(s.variant, s.roster, s.games[g1]);
        ZeroBits(q);
      }
    }
  }

  /** `q` is on the `candidates` mask of `perm0`: a player of `g0` other
      than `p0` and free in the round of `g1`. */
  ghost predicate FreeIn(s: Sched, p0: nat, g0: nat, g1: nat, q: nat)
    reads s
    requires g0 < |s.games| && g1 < |s.games| && s.games[g1].round < |s.roundMask|
  {
    TestBit(s.games[g0].mask, q) && q != p0 && !TestBit(s.roundMask[s.games[g1].round], q)
  }

  /** The `candidates` mask of `perm0` is empty. */
  ghost predicate NoCandidate(s: Sched, p0: nat, g0: nat, g1: nat)
    reads s
    requires g0 < |s.games| && g1 < |s.games| && s.games[g1].round < |s.roundMask|
  {
    forall q: nat :: !FreeIn(s, p0, g0, g1, q)
  }

  /** The `do .. while` of `perm0`: distinct players of a list without
      repetitions, as many as `Picked` allows.  Which ones depends on the
      normal draws and `rand()`, so the model leaves the choice open. */
  method PickSwap(v: Variant, swap: seq<nat>, count: int, dist: int) returns (p2: seq<nat>)
    requires forall t, u | 0 <= t < u < |swap| :: swap[t] < swap[u]
    requires v == Y2014 ==> |swap| >= 1
    requires v != Y2014 ==> 0 <= count <= |swap|
    ensures Picked(v, p2, swap, count, dist)
  {
    var take := if v == Y2014 || count >= 1 then count else 0;
    if v == Y2014 {
      take := 1;
    }
    assert Picked(v, swap[..take], swap, count, dist);
    p2 :| Picked(v, p2, swap, count, dist);
  }

  /** What the middle of `perm0` decides: give up and count it in bucket
      `bucket`, divide by zero in `rand() % cnt`, or exchange the players
      `p2`. */
  datatype Swap = GiveUp(bucket: nat) | ModZero | Take(p2: seq<nat>)

  /** The middle of `perm0`, between the choice of the two players and
      the last two tests: the `candidates` mask, the `swap` list, and the
      players `p2` the `do .. while` picks from it.  It gives up in bucket
      0 exactly when the mask is empty, and in bucket 1 (HT15 and VT15)
      when `swap` is shorter than `p1`'s count.  When `p1` counts zero, the
      count test lets an empty `swap` through, and a first draw `dist`
      that is not negative reaches `rand() % cnt` with `cnt == 0`.
      Otherwise the two games are in different rounds and no player of
      `p2` is busy in the round of `g1`, so the bucket 2 test never
      fires. */
  method SelectSwap(s: Sched, p0: nat, p1: nat, g0: nat, g1: nat, dist: int) returns (x: Swap)
    requires s.Valid() && p0 < |s.roster| && p1 < |s.roster| && g0 < |s.games| && g1 < |s.games|
    requires TestBit(s.games[g0].mask, p0)
    ensures x.GiveUp? ==> x.bucket in {0, 1} && (s.variant == Y2014 ==> x.bucket == 0)
    ensures x == GiveUp(0) <==> NoCandidate(s, p0, g0, g1)
    ensures x.ModZero? <==> && s.variant != Y2014 && s.roster[p1].countAs == 0 && dist >= 0
                            && !NoCandidate(s, p0, g0, g1)
                            && (forall q: nat :: FreeIn(s, p0, g0, g1, q) ==> !SwapOk(s, p1, g1, q))
    ensures x.Take? ==> s.games[g0].round != s.games[g1].round && Distinct(x.p2)
    ensures x.Take? ==> forall i | 0 <= i < |x.p2| ::
              && x.p2[i] < |s.roster| && x.p2[i] != p0 && TestBit(s.games[g0].mask, x.p2[i])
              && !TestBit(s.games[g1].unavailable, x.p2[i]) && !TestBit(s.roundMask[s.games[g1].round], x.p2[i])
    ensures x.Take? && s.variant == Y2014 ==> |x.p2| == 1
    ensures x.Take? && s.variant != Y2014 ==> s.roster[p1].countAs >= 0
    ensures x.Take? && s.variant != Y2014 && s.roster[p1].countAs >= 1 ==> |x.p2| == s.roster[p1].countAs
    ensures x.Take? && s.variant != Y2014 && s.roster[p1].countAs == 0 ==> |x.p2| <= 1 && (dist < 0 ==> x.p2 == [])
  {
    var game0 := s.games[g0];
    var game1 := s.games[g1];
    assert GameOk(s.variant, s.roster, game0);
    assert GameOk(s.variant, s.roster, game1);
    var candidates := Minus(ClearBit(game0.mask, p0), s.roundMask[game1.round]);
    assert forall q: nat :: TestBit(candidates, q) <==> FreeIn(s, p0, g0, g1, q);
    if candidates == 0 {
      forall q: nat ensures !FreeIn(s, p0, g0, g1, q) {
        ZeroBits(q);
      }
      assert NoCandidate(s, p0, g0, g1);
      return GiveUp(0);
    }
    assert IsWord(candidates) by { assert candidates <= game0.mask; }
    ghost var q := SomeBit(candidates, WordBits);
    assert FreeIn(s, p0, g0, g1, q);
    assert !NoCandidate(s, p0, g0, g1);
    InGameBusy(s, g0, q);
    assert game0.round != game1.round;
    var swap := SwapList(s, candidates, p1, g1);
    var count := if s.variant == Y2014 then 1 else s.roster[p1].countAs;
    if s.variant != Y2014 && (count < 0 || |swap| < count) {
      return GiveUp(1);
    }
    if s.variant != Y2014 && count == 0 && dist >= 0 && |swap| == 0 {
      forall q': nat | FreeIn(s, p0, g0, g1, q')
        ensures !SwapOk(s, p1, g1, q')
      {
        assert q' in game0.players;
        assert q' !in swap;
      }
      return ModZero;
    }
    if s.variant != Y2014 && count == 0 && dist >= 0 {
      assert swap[0] in swap;
      assert FreeIn(s, p0, g0, g1, swap[0]) && SwapOk(s, p1, g1, swap[0]);
    }
    if s.variant == Y2014 {
      assert q in swap;
    }
    var p2 := PickSwap(s.variant, swap, count, dist);
    PickedFree(s, p0, p1, g0, g1, candidates, swap, p2);
    return Take(p2);
  }

  /** `perm0(s)`.  It returns false when every pair has played together,
      and (HT15) when `p0` or `p1` plays no game; the two divisions by zero
      end the program, and the model returns false for them too; every
      other exit returns true.  An exit before the exchange changes nothing
      but the `failed_swap` counter of its bucket; bucket 2 cannot be
      reached.  The exchange keeps every player's number of games, moves
      exactly the players `moved` of `g0` and `p1` of `g1`, and makes `p0`
      and `p1`, who had never played together, share `g0`. */
  method Perm0(s: Sched, d: Draws) returns (ok: bool, r: Perm)
    requires s.Valid() && |s.stats.failedSwap| == 5
    modifies s`games, s`roundMask, s`gamesPerPlayer, s.together, s`stats
    ensures s.Valid() && |s.games| == old(|s.games|)
    ensures ok <==> r.Failed? || r.Swapped?
    ensures r.NoPair? <==> forall a, b | 0 <= a < b < |s.roster| :: old(s.together[a, b]) != 0
    ensures r.GamesModZero? <==> |s.games| == 0 && !r.NoPair?
    ensures r.NoGame? ==> r.p0 < |s.roster| && r.p1 < |s.roster| && r.p0 != r.p1
                          && old(s.together[r.p0, r.p1]) == 0
                          && ((forall k | 0 <= k < |s.games| :: !TestBit(old(s.games[k].mask), r.p0))
                              || (forall k | 0 <= k < |s.games| :: !TestBit(old(s.games[k].mask), r.p1)))
    ensures r.SwapModZero? ==> && s.variant != Y2014 && r.p0 < |s.roster| && r.p1 < |s.roster| && r.p0 != r.p1
                               && old(s.together[r.p0, r.p1]) == 0 && r.g0 < |s.games| && r.g1 < |s.games|
                               && TestBit(s.games[r.g0].mask, r.p0) && TestBit(s.games[r.g1].mask, r.p1)
                               && s.roster[r.p1].countAs == 0 && d.dist >= 0
                               && (exists q: nat :: FreeIn(s, r.p0, r.g0, r.g1, q))
                               && (forall q: nat :: FreeIn(s, r.p0, r.g0, r.g1, q) ==> !SwapOk(s, r.p1, r.g1, q))
    ensures !r.Swapped? ==> s.games == old(s.games) && s.roundMask == old(s.roundMask)
                            && s.gamesPerPlayer == old(s.gamesPerPlayer)
                            && forall i, j | 0 <= i < |s.roster| && 0 <= j < |s.roster| :: s.together[i, j] == old(s.together[i, j])
    ensures r.Failed? ==> r.bucket in {0, 1, 3, 4} && (s.variant == Y2014 ==> r.bucket in {0, 3})
    ensures r.Failed? ==> s.stats == CountFailure(s.variant, old(s.stats), r.bucket)
    ensures !r.Failed? && !r.Swapped? ==> s.stats == old(s.stats)
    ensures r.Swapped? ==>
              && r.p0 < |s.roster| && r.p1 < |s.roster| && r.p0 != r.p1
              && old(s.together[r.p0, r.p1]) == 0 && s.together[r.p0, r.p1] > 0
              && s.gamesPerPlayer == old(s.gamesPerPlayer)
              && s.stats == (if s.variant == Y2014 then old(s.stats) else old(s.stats).(swaps := old(s.stats.swaps) + 1))
              && Exchanged(old(s.games), old(s.roundMask), s.games, s.roundMask, r.g0, r.g1, r.p1, r.moved)
              && TestBit(old(s.games[r.g0].mask), r.p0) && TestBit(s.games[r.g0].mask, r.p0)
              && Distinct(r.moved) && r.p0 !in r.moved
              && (s.variant == Y2014 ==> |r.moved| == 1)
              && (s.variant != Y2014 ==> s.roster[r.p1].countAs >= 0)
              && (s.variant != Y2014 && s.roster[r.p1].countAs >= 1 ==> |r.moved| == s.roster[r.p1].countAs)
              && (s.variant != Y2014 && s.roster[r.p1].countAs == 0 ==> |r.moved| <= 1 && (d.dist < 0 ==> r.moved == []))
  {
    var pick := ChoosePair(s, d);
    if pick.Chosen? {
      r := Attempt(s, pick.p0, pick.p1, pick.g0, pick.g1, d.dist);
      ok := !r.SwapModZero?;
    } else {
      ok, r := false, Declined(pick);
    }
  }

  /** The outcome of `perm0` when no pair of games was chosen. */
  function Declined(pick: Pick): (r: Perm)
    requires !pick.Chosen?
    ensures pick.Nobody? <==> r.NoPair?
    ensures pick.Gameless? <==> r.GamesModZero?
    ensures pick.Homeless? <==> r.NoGame?
    ensures pick.Homeless? ==> r == NoGame(pick.p0, pick.p1)
  {
    match pick
    case Nobody => NoPair
    case Gameless => GamesModZero
    case Homeless(p0, p1) => NoGame(p0, p1)
  }

  /** The part of `perm0` after `p0`, `p1`, `g0` and `g1` are drawn: the
      candidate search, then the exchange. */
  method Attempt(s: Sched, p0: nat, p1: nat, g0: nat, g1: nat, dist: int) returns (r: Perm)
    requires s.Valid() && |s.stats.failedSwap| == 5
    requires p0 < |s.roster| && p1 < |s.roster| && p0 != p1 && s.together[p0, p1] == 0
    requires g0 < |s.games| && g1 < |s.games|
    requires TestBit(s.games[g0].mask, p0) && TestBit(s.games[g1].mask, p1)
    modifies s`games, s`roundMask, s`gamesPerPlayer, s.together, s`stats
    ensures s.Valid() && |s.games| == old(|s.games|)
    ensures r.Failed? || r == SwapModZero(p0, p1, g0, g1) || r.Swapped?
    ensures r.SwapModZero? ==> && s.variant != Y2014 && s.roster[p1].countAs == 0 && dist >= 0
                               && !NoCandidate(s, p0, g0, g1)
                                && (forall q: nat :: FreeIn(s, p0, g0, g1, q) ==> !SwapOk(s, p1, g1, q))
    ensures !r.Swapped? ==> s.games == old(s.games) && s.roundMask == old(s.roundMask)
                            && s.gamesPerPlayer == old(s.gamesPerPlayer)
                            && forall i, j | 0 <= i < |s.roster| && 0 <= j < |s.roster| :: s.together[i, j] == old(s.together[i, j])
    ensures r.Failed? ==> r.bucket in {0, 1, 3, 4} && (s.variant == Y2014 ==> r.bucket in {0, 3})
    ensures r.Failed? ==> s.stats == CountFailure(s.variant, old(s.stats), r.bucket)
    ensures r.SwapModZero? ==> s.stats == old(s.stats)
    ensures r.Swapped? ==>
              && r.p0 == p0 && r.p1 == p1 && r.g0 == g0 && r.g1 == g1
              && s.together[p0, p1] > 0 && s.gamesPerPlayer == old(s.gamesPerPlayer)
              && s.stats == (if s.variant == Y2014 then old(s.stats) else old(s.stats).(swaps := old(s.stats.swaps) + 1))
              && Exchanged(old(s.games), old(s.roundMask), s.games, s.roundMask, g0, g1, p1, r.moved)
              && TestBit(s.games[g0].mask, p0)
              && Distinct(r.moved) && p0 !in r.moved
              && (s.variant == Y2014 ==> |r.moved| == 1)
              && (s.variant != Y2014 ==> s.roster[p1].countAs >= 0)
              && (s.variant != Y2014 && s.roster[p1].countAs >= 1 ==> |r.moved| == s.roster[p1].countAs)
              && (s.variant != Y2014 && s.roster[p1].countAs == 0 ==> |r.moved| <= 1 && (dist < 0 ==> r.moved == []))
  {
    var x := SelectSwap(s, p0, p1, g0, g1, dist);
    if x.GiveUp? {
      s.stats := CountFailure(s.variant, s.stats, x.bucket);
      return Failed(x.bucket);
    }
    if x.ModZero? {
      return SwapModZero(p0, p1, g0, g1);
    }
    r := Finish(s, p0, p1, g0, g1, x.p2);
  }

  /** The end of `perm0`: the tests of `p1` against the round and the
      unavailability of `g0` (buckets 3 and 4), then the exchange and, in
      HT15 and VT15, `swaps++`. */
  method Finish(s: Sched, p0: nat, p1: nat, g0: nat, g1: nat, p2: seq<nat>) returns (r: Perm)
    requires s.Valid() && |s.stats.failedSwap| == 5
    requires p0 < |s.roster| && p1 < |s.roster| && p0 != p1 && s.together[p0, p1] == 0
    requires g0 < |s.games| && g1 < |s.games| && s.games[g0].round != s.games[g1].round
    requires TestBit(s.games[g0].mask, p0) && TestBit(s.games[g1].mask, p1) && Distinct(p2)
    requires forall i | 0 <= i < |p2| ::
               && p2[i] < |s.roster| && p2[i] != p0 && TestBit(s.games[g0].mask, p2[i])
               && !TestBit(s.games[g1].unavailable, p2[i]) && !TestBit(s.roundMask[s.games[g1].round], p2[i])
    modifies s`games, s`roundMask, s`gamesPerPlayer, s.together, s`stats
    ensures s.Valid() && s.gamesPerPlayer == old(s.gamesPerPlayer)
    ensures r.Failed? || r == Swapped(p0, p1, g0, g1, p2)
    ensures r.Failed? ==> && r.bucket in {3, 4} && (s.variant == Y2014 ==> r.bucket == 3)
                          && s.stats == CountFailure(s.variant, old(s.stats), r.bucket)
                          && s.games == old(s.games) && s.roundMask == old(s.roundMask)
                          && forall i, j | 0 <= i < |s.roster| && 0 <= j < |s.roster| :: s.together[i, j] == old(s.together[i, j])
    ensures r.Swapped? ==>
              && Exchanged(old(s.games), old(s.roundMask), s.games, s.roundMask, g0, g1, p1, p2)
              && s.together[p0, p1] > 0 && TestBit(s.games[g0].mask, p0)
              && s.stats == (if s.variant == Y2014 then old(s.stats) else old(s.stats).(swaps := old(s.stats.swaps) + 1))
  {
    var game0 := s.games[g0];
    if TestBit(s.roundMask[game0.round], p1) {
      s.stats := CountFailure(s.variant, s.stats, 3);
      return Failed(3);
    }
    if s.variant != Y2014 && TestBit(game0.unavailable, p1) {
      s.stats := CountFailure(s.variant, s.stats, 4);
      return Failed(4);
    }
    assert GameOk(s.variant, s.roster, game0);
    if s.variant == Y2014 {
      ZeroBits(p1);
    }
    if TestBit(game0.mask, p1) {
      SameGameMet(s, g0, p0, p1);
    }
    assert p0 !in p2;
    Exchange(s, p0, p1, g0, g1, p2);
    if s.variant != Y2014 {
      s.stats := s.stats.(swaps := s.stats.swaps + 1);
    }
    return Swapped(p0, p1, g0, g1, p2);
  }

  /** `permutate(s)`: up to 100 calls of `perm0`, the `i`-th with the
      draws `draws[i]`, stopping after the first that returns false.  Every
      player keeps their number of games throughout, and an early stop
      means the last call found no pair to join or (HT15) a player without
      a game. */
  method Permutate(s: Sched, draws: seq<Draws>) returns (calls: nat, last: Perm)
    requires s.Valid() && |s.stats.failedSwap| == 5 && |draws| == 100
    modifies s`games, s`roundMask, s`gamesPerPlayer, s.together, s`stats
    ensures s.Valid() && |s.games| == old(|s.games|) && s.gamesPerPlayer == old(s.gamesPerPlayer)
    ensures |s.stats.failedSwap| == 5
    ensures 1 <= calls <= 100
    ensures calls < 100 ==> last.NoPair? || last.NoGame? || last.GamesModZero? || last.SwapModZero?
    ensures last.NoPair? ==> forall a, b | 0 <= a < b < |s.roster| :: s.together[a, b] != 0
  {
    calls := 0;
    last := NoPair;
    while calls < 100
      invariant s.Valid() && |s.games| == old(|s.games|) && s.gamesPerPlayer == old(s.gamesPerPlayer)
      invariant |s.stats.failedSwap| == 5 && calls <= 100
      invariant calls > 0 && last.NoPair? ==> forall a, b | 0 <= a < b < |s.roster| :: s.together[a, b] != 0
      decreases 100 - calls
    {
      var ok;
      ok, last := Perm0(s, draws[calls]);
      calls := calls + 1;
      if !ok {
        break;
      }
    }
  }
}
