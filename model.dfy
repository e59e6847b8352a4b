/** Players, games and schedule statistics shared by the three generations
    of the schedule optimiser (`2014`, `HT15` and `VT15`), and the pure
    bookkeeping that `add_player_to_game` / `remove_player_from_game`
    perform on one game. */
module Model {
  import opened Bits
  import opened CArith

  datatype Option<T> = None | Some(value: T)

  /** Which generation of the program a schedule belongs to. */
  datatype Variant = Y2014 | HT15 | VT15

  /** `players_per_game`: 9 in 2014 and VT15, 7 in HT15. */
  function PlayersPerGame(v: Variant): (r: nat)
    ensures r == (if v == HT15 then 7 else 9)
  {
    match v
    case HT15 => 7
    case _ => 9
  }

  /** `INT_MAX` of a 32-bit `int`, the start value of every running minimum. */
  const IntMax: int := 0x7FFF_FFFF

  /** A player read from the roster file.  Its `index` is its position in
      the roster, which is sorted by descending score. */
  datatype Player = Player(score: int, ledare: int, goalkeeper: int, countAs: int, lostGames: int)

  /** The running totals a game keeps for its players. */
  datatype Field = Score | Ledare | Goalkeeper | CountAs

  /** What one player adds to a game total: 2014 adds the raw `ledare`
      value, HT15 and VT15 add `!!ledare` (0 or 1). */
  function Weight(v: Variant, f: Field, p: Player): (r: int)
    ensures f == Ledare && v != Y2014 ==> r == (if p.ledare != 0 then 1 else 0)
    ensures f == Ledare && v == Y2014 ==> r == p.ledare
    ensures f != Ledare ==> r == (match f case Score => p.score case Goalkeeper => p.goalkeeper case _ => p.countAs)
  {
    match f
    case Score => p.score
    case Ledare => if v == Y2014 then p.ledare else if p.ledare != 0 then 1 else 0
    case Goalkeeper => p.goalkeeper
    case CountAs => p.countAs
  }

  predicate InRoster(roster: seq<Player>, ps: seq<nat>)
  {
    forall i | 0 <= i < |ps| :: ps[i] < |roster|
  }

  predicate Distinct(ps: seq<nat>)
  {
    forall i, j | 0 <= i < j < |ps| :: ps[i] != ps[j]
  }

  /** The sum of field `f` over the players `ps`. */
  function Total(v: Variant, roster: seq<Player>, ps: seq<nat>, f: Field): int
    requires InRoster(roster, ps)
  {
    if ps == [] then 0 else Weight(v, f, roster[ps[0]]) + Total(v, roster, ps[1..], f)
  }

  lemma {:induction false} TotalAppend(v: Variant, roster: seq<Player>, ps: seq<nat>, p: nat, f: Field)
    requires InRoster(roster, ps) && p < |roster|
    ensures InRoster(roster, ps + [p])
    ensures Total(v, roster, ps + [p], f) == Total(v, roster, ps, f) + Weight(v, f, roster[p])
  {
    if ps != [] {
      assert (ps + [p])[1..] == ps[1..] + [p];
      TotalAppend(v, roster, ps[1..], p, f);
    }
  }

  /** `vector::erase(find(...))`: drops the first occurrence of `p`. */
  function RemoveFirst(ps: seq<nat>, p: nat): (r: seq<nat>)
    ensures p in ps ==> |r| == |ps| - 1
    ensures p !in ps ==> r == ps
    ensures multiset(r) == multiset(ps) - multiset{p}
  {
    if ps == [] then []
    else if ps[0] == p then
      assert ps == [ps[0]] + ps[1..];
      ps[1..]
    else
      assert ps == [ps[0]] + ps[1..];
      [ps[0]] + RemoveFirst(ps[1..], p)
  }

  lemma {:induction false} RemoveFirstInRoster(roster: seq<Player>, ps: seq<nat>, p: nat)
    requires InRoster(roster, ps)
    ensures InRoster(roster, RemoveFirst(ps, p))
  {
    if ps != [] && ps[0] != p {
      RemoveFirstInRoster(roster, ps[1..], p);
      assert RemoveFirst(ps, p) == [ps[0]] + RemoveFirst(ps[1..], p);
    }
  }

  lemma {:induction false} TotalRemove(v: Variant, roster: seq<Player>, ps: seq<nat>, p: nat, f: Field)
    requires InRoster(roster, ps) && p in ps
    ensures InRoster(roster, RemoveFirst(ps, p))
    ensures Total(v, roster, RemoveFirst(ps, p), f) == Total(v, roster, ps, f) - Weight(v, f, roster[p])
  {
    RemoveFirstInRoster(roster, ps, p);
    if ps[0] != p {
      TotalRemove(v, roster, ps[1..], p, f);
      var r := RemoveFirst(ps[1..], p);
      assert RemoveFirst(ps, p) == [ps[0]] + r;
      assert ([ps[0]] + r)[1..] == r;
    }
  }

  /** In a list without repetitions an index occurs once or not at all. */
  lemma DistinctOccurrences(ps: seq<nat>, x: nat)
    requires Distinct(ps)
    ensures multiset(ps)[x] == (if x in ps then 1 else 0)
  {
    if ps != [] {
      assert ps == [ps[0]] + ps[1..];
      assert Distinct(ps[1..]);
      DistinctOccurrences(ps[1..], x);
    }
  }

  /** A game of the schedule.  `mask` is `players_mask`; `unavailable` is the
      `unavailable_mask` of HT15 and VT15 and is zero in 2014, which has no
      such field. */
  datatype Game = Game(round: nat, score: int, ledare: int, goalkeeper: int, count: int,
                       players: seq<nat>, mask: nat, unavailable: nat)

  /** The running total a game keeps for field `f`. */
  function Aggregate(g: Game, f: Field): int
  {
    match f
    case Score => g.score
    case Ledare => g.ledare
    case Goalkeeper => g.goalkeeper
    case CountAs => g.count
  }

  /** The bookkeeping of one game agrees with its players list. */
  ghost predicate GameOk(v: Variant, roster: seq<Player>, g: Game)
  {
    && InRoster(roster, g.players) && Distinct(g.players)
    && IsWord(g.mask) && IsWord(g.unavailable)
    && (forall q: nat :: TestBit(g.mask, q) <==> q in g.players)
    && (forall q | q in g.players :: !TestBit(g.unavailable, q))
    && (v == Y2014 ==> g.unavailable == 0)
    && (forall f: Field :: Aggregate(g, f) == Total(v, roster, g.players, f))
  }

  /** `copy_game`: a game with the same round and unavailability but no
      players and zero totals. */
  function Blank(g: Game): (r: Game)
    ensures r.round == g.round && r.unavailable == g.unavailable && r.players == []
    ensures forall q: nat :: !TestBit(r.mask, q)
    ensures forall f: Field :: Aggregate(r, f) == 0
  {
    forall q: nat ensures !TestBit(0, q) {
      ZeroBits(q);
    }
    Game(g.round, 0, 0, 0, 0, [], 0, g.unavailable)
  }

  /** The game after `add_player_to_game`: totals grow by the player's
      weights, the player is appended and its bit set. */
  function Joined(v: Variant, roster: seq<Player>, g: Game, p: nat): (r: Game)
    requires p < |roster| && p < WordBits
  {
    Game(g.round,
         g.score + Weight(v, Score, roster[p]),
         g.ledare + Weight(v, Ledare, roster[p]),
         g.goalkeeper + Weight(v, Goalkeeper, roster[p]),
         g.count + Weight(v, CountAs, roster[p]),
         g.players + [p], SetBit(g.mask, p), g.unavailable)
  }

  /** The game after `remove_player_from_game`: totals shrink by the
      player's weights, its first occurrence is erased and its bit cleared. */
  function Left(v: Variant, roster: seq<Player>, g: Game, p: nat): (r: Game)
    requires p < |roster| && p < WordBits
  {
    Game(g.round,
         g.score - Weight(v, Score, roster[p]),
         g.ledare - Weight(v, Ledare, roster[p]),
         g.goalkeeper - Weight(v, Goalkeeper, roster[p]),
         g.count - Weight(v, CountAs, roster[p]),
         RemoveFirst(g.players, p), ClearBit(g.mask, p), g.unavailable)
  }

  /** `Game::get_score` of HT15 and VT15 is the average `score / count`
      (C division); 2014 ranks games by their raw summed score. */
  function GameScore(v: Variant, g: Game): (r: int)
    requires v != Y2014 ==> g.count != 0
    ensures v == Y2014 ==> r == g.score
    ensures v != Y2014 && g.score >= 0 && g.count > 0 ==> 0 <= r <= g.score
  {
    if v == Y2014 then g.score else CDiv(g.score, g.count)
  }

  /** The precondition `add_player_to_game` asserts on the game. */
  predicate CanJoin(g: Game, p: nat)
  {
    !TestBit(g.mask, p) && !TestBit(g.unavailable, p)
  }

  /** Adding a player the game asserts it can take keeps the game's
      bookkeeping consistent, and the player is now in the game. */
  lemma JoinedOk(v: Variant, roster: seq<Player>, g: Game, p: nat)
    requires GameOk(v, roster, g) && p < |roster| && p < WordBits && CanJoin(g, p)
    ensures GameOk(v, roster, Joined(v, roster, g, p))
    ensures Joined(v, roster, g, p).players == g.players + [p]
  {
    var r := Joined(v, roster, g, p);
    forall f: Field ensures Aggregate(r, f) == Total(v, roster, r.players, f) {
      TotalAppend(v, roster, g.players, p, f);
    }
    forall q: nat ensures TestBit(r.mask, q) <==> q in r.players {
    }
  }

  /** Removing a player of the game keeps the game's bookkeeping consistent,
      and exactly that player leaves. */
  lemma LeftOk(v: Variant, roster: seq<Player>, g: Game, p: nat)
    requires GameOk(v, roster, g) && p < |roster| && p < WordBits && p in g.players
    ensures GameOk(v, roster, Left(v, roster, g, p))
    ensures forall q: nat :: q in Left(v, roster, g, p).players <==> q in g.players && q != p
  {
    var r := Left(v, roster, g, p);
    DistinctRemove(g.players, p);
    RemoveFirstMembers(g.players, p);
    RemoveFirstInRoster(roster, g.players, p);
    forall f: Field ensures Aggregate(r, f) == Total(v, roster, r.players, f) {
      TotalRemove(v, roster, g.players, p, f);
    }
  }

  lemma {:induction false} DistinctRemove(ps: seq<nat>, p: nat)
    requires Distinct(ps)
    ensures Distinct(RemoveFirst(ps, p))
  {
    if ps != [] {
      var t := ps[1..];
      assert ps == [ps[0]] + t;
      assert Distinct(t) && ps[0] !in t;
      DistinctRemove(t, p);
      if ps[0] != p {
        var r := RemoveFirst(t, p);
        assert RemoveFirst(ps, p) == [ps[0]] + r;
        RemoveFirstMembers(t, p);
        DistinctCons(ps[0], r);
      }
    }
  }

  /** Without repetitions, dropping `p` leaves exactly the other players. */
  lemma RemoveFirstMembers(ps: seq<nat>, p: nat)
    requires Distinct(ps)
    ensures forall q: nat :: q in RemoveFirst(ps, p) <==> q in ps && q != p
  {
    forall q: nat ensures q in RemoveFirst(ps, p) <==> q in ps && q != p {
      DistinctOccurrences(ps, q);
      assert q in RemoveFirst(ps, p) <==> q in multiset(RemoveFirst(ps, p));
    }
  }

  /** A new first element keeps a list without repetitions. */
  lemma DistinctCons(x: nat, r: seq<nat>)
    requires Distinct(r) && x !in r
    ensures Distinct([x] + r)
  {
    var l := [x] + r;
    forall i, j | 0 <= i < j < |l| ensures l[i] != l[j] {
      assert l[j] == r[j - 1];
      if i > 0 {
        assert l[i] == r[i - 1];
      }
    }
  }

  /** Adding a player and removing it again restores the game exactly:
      totals, players list and mask. */
  lemma JoinLeaveRoundTrip(v: Variant, roster: seq<Player>, g: Game, p: nat)
    requires GameOk(v, roster, g) && p < |roster| && p < WordBits && CanJoin(g, p)
    ensures Left(v, roster, Joined(v, roster, g, p), p) == g
  {
    var j := Joined(v, roster, g, p);
    var r := Left(v, roster, j, p);
    RemoveAppended(g.players, p);
    BitsExt(r.mask, g.mask);
  }

  lemma {:induction false} RemoveAppended(ps: seq<nat>, p: nat)
    requires p !in ps
    ensures RemoveFirst(ps + [p], p) == ps
  {
    if ps != [] {
      assert (ps + [p])[1..] == ps[1..] + [p];
      RemoveAppended(ps[1..], p);
    }
  }

  /** What the `games_together` loop of an add (sign +1) or a remove
      (sign -1) changes in cell `(i, j)`: for every `pp` in the game's list
      both `(pp, p)` and `(p, pp)` move. */
  function PairDelta(ps: seq<nat>, p: nat, i: nat, j: nat): int
  {
    (if j == p then multiset(ps)[i] else 0) + (if i == p then multiset(ps)[j] else 0)
  }

  /** The pair matrix left after an add followed by a remove of the same
      player: every cell is restored except the diagonal cell of `p`, which
      stays 2 higher, because `p` is in the list during the add loop and
      already erased during the remove loop. */
  lemma PairRoundTrip(ps: seq<nat>, p: nat, i: nat, j: nat)
    requires p !in ps
    ensures PairDelta(ps + [p], p, i, j) - PairDelta(RemoveFirst(ps + [p], p), p, i, j)
            == (if i == p && j == p then 2 else 0)
  {
    RemoveAppended(ps, p);
    assert multiset(ps + [p]) == multiset(ps) + multiset{p};
  }

  /** Aspects of a schedule counted over its games. */
  datatype Query = HasPlayer(q: nat) | HasPair(a: nat, b: nat) | InRound(r: nat, q: nat)

  predicate Holds(k: Query, g: Game)
  {
    match k
    case HasPlayer(q) => q in g.players
    case HasPair(a, b) => a in g.players && b in g.players
    case InRound(r, q) => g.round == r && q in g.players
  }

  /** The number of games for which `k` holds. */
  function Count(gs: seq<Game>, k: Query): (r: nat)
    ensures r <= |gs|
  {
    if gs == [] then 0 else (if Holds(k, gs[0]) then 1 else 0) + Count(gs[1..], k)
  }

  /** A prefix one longer is the shorter prefix and the next element. */
  lemma PrefixSnoc<T>(xs: seq<T>, a: nat)
    requires a < |xs|
    ensures xs[..a + 1] == xs[..a] + [xs[a]]
  {
  }

  /** Replacing one game changes a count only by that game's contribution. */
  lemma {:induction false} CountUpdate(gs: seq<Game>, n: nat, g: Game, k: Query)
    requires n < |gs|
    ensures Count(gs[n := g], k)
            == Count(gs, k) - (if Holds(k, gs[n]) then 1 else 0) + (if Holds(k, g) then 1 else 0)
  {
    if n > 0 {
      assert gs[n := g][1..] == gs[1..][n - 1 := g];
      CountUpdate(gs[1..], n - 1, g, k);
    }
  }

  lemma {:induction false} CountAppend(gs: seq<Game>, g: Game, k: Query)
    ensures Count(gs + [g], k) == Count(gs, k) + (if Holds(k, g) then 1 else 0)
  {
    if gs != [] {
      assert (gs + [g])[1..] == gs[1..] + [g];
      CountAppend(gs[1..], g, k);
    }
  }

  /** A count over a prefix never exceeds the count over the whole list. */
  lemma {:induction false} CountPrefix(gs: seq<Game>, n: nat, k: Query)
    requires n <= |gs|
    ensures Count(gs[..n], k) + (if n < |gs| && Holds(k, gs[n]) then 1 else 0) <= Count(gs, k)
    decreases |gs| - n
  {
    if n < |gs| {
      CountAppend(gs[..n], gs[n], k);
      assert gs[..n + 1] == gs[..n] + [gs[n]];
      CountPrefix(gs, n + 1, k);
    } else {
      assert gs[..n] == gs;
    }
  }

  /** The per-game statistics of a schedule (`struct Stats` without the
      pair matrix and `games_per_player`, which the schedule keeps beside
      it).  `maxGames` exists only in HT15 and `minGames` not in 2014. */
  datatype Stats = Stats(minTogether: seq<int>, cntGamesTogether: seq<int>,
                         minGames: int, maxGames: int, cntGoalkeeper: int,
                         minScore: int, medianScore: int, maxScore: int, minLedare: int,
                         swaps: int, failedSwap: seq<int>)

  /** A freshly constructed `Stats`: no swaps and no failed swaps; the
      uninitialised scalar fields are taken as zero. */
  function NewStats(): (r: Stats)
    ensures r.swaps == 0 && |r.failedSwap| == 5
    ensures forall i | 0 <= i < 5 :: r.failedSwap[i] == 0
    ensures r.minTogether == [] && r.cntGamesTogether == []
  {
    Stats([], [], 0, 0, 0, 0, 0, 0, 0, 0, [0, 0, 0, 0, 0])
  }
}
