/** `compute_stats`: the pair-count histogram, the running minima of the
    pair matrix rows, the least and most games per player, and the
    minimum, median and maximum game score, the least leader count and the
    number of games with a goalkeeper. */
module Statistics {
  import opened Bits
  import opened Model
  import opened Schedule

  /** A running minimum started at `init`, as the source's loops keep it. */
  function MinFrom(init: int, xs: seq<int>): (r: int)
    ensures r <= init
  {
    if xs == [] then init
    else
      var m := MinFrom(init, xs[..|xs| - 1]);
      if xs[|xs| - 1] < m then xs[|xs| - 1] else m
  }

  /** A running maximum started at `init`. */
  function MaxFrom(init: int, xs: seq<int>): (r: int)
    ensures r >= init
  {
    if xs == [] then init
    else
      var m := MaxFrom(init, xs[..|xs| - 1]);
      if xs[|xs| - 1] > m then xs[|xs| - 1] else m
  }

  /** The running minimum is a lower bound of every element. */
  lemma {:induction false} MinFromBound(init: int, xs: seq<int>)
    ensures forall i | 0 <= i < |xs| :: MinFrom(init, xs) <= xs[i]
  {
    if xs != [] {
      MinFromBound(init, xs[..|xs| - 1]);
    }
  }

  /** The running maximum is an upper bound of every element. */
  lemma {:induction false} MaxFromBound(init: int, xs: seq<int>)
    ensures forall i | 0 <= i < |xs| :: MaxFrom(init, xs) >= xs[i]
  {
    if xs != [] {
      MaxFromBound(init, xs[..|xs| - 1]);
    }
  }

  /** The running minimum is attained: it is the start value or an element. */
  lemma {:induction false} MinFromAttained(init: int, xs: seq<int>)
    ensures MinFrom(init, xs) == init || MinFrom(init, xs) in xs
  {
    if xs != [] {
      MinFromAttained(init, xs[..|xs| - 1]);
      assert forall y | y in xs[..|xs| - 1] :: y in xs;
    }
  }

  /** The running maximum is attained: it is the start value or an element. */
  lemma {:induction false} MaxFromAttained(init: int, xs: seq<int>)
    ensures MaxFrom(init, xs) == init || MaxFrom(init, xs) in xs
  {
    if xs != [] {
      MaxFromAttained(init, xs[..|xs| - 1]);
      assert forall y | y in xs[..|xs| - 1] :: y in xs;
    }
  }

  lemma MinFromSnoc(init: int, xs: seq<int>, x: int)
    ensures MinFrom(init, xs + [x]) == if x < MinFrom(init, xs) then x else MinFrom(init, xs)
  {
    assert (xs + [x])[..|xs|] == xs;
  }

  lemma MaxFromSnoc(init: int, xs: seq<int>, x: int)
    ensures MaxFrom(init, xs + [x]) == if x > MaxFrom(init, xs) then x else MaxFrom(init, xs)
  {
    assert (xs + [x])[..|xs|] == xs;
  }

  predicate Ascending(xs: seq<int>)
  {
    forall i, j | 0 <= i < j < |xs| :: xs[i] <= xs[j]
  }

  /** Insertion of `x` before the first element not below it. */
  function Insert(x: int, xs: seq<int>): (r: seq<int>)
    ensures |r| == |xs| + 1
  {
    if xs == [] || x <= xs[0] then [x] + xs else [xs[0]] + Insert(x, xs[1..])
  }

  /** Insertion into an ascending sequence keeps it ascending; its head is
      the smaller of `x` and the old head. */
  lemma {:induction false} InsertAscending(x: int, xs: seq<int>)
    requires Ascending(xs)
    ensures Ascending(Insert(x, xs))
    ensures Insert(x, xs)[0] == if xs == [] || x <= xs[0] then x else xs[0]
  {
    if xs != [] && x > xs[0] {
      var t := Insert(x, xs[1..]);
      InsertAscending(x, xs[1..]);
      var r := [xs[0]] + t;
      forall i, j | 0 <= i < j < |r| ensures r[i] <= r[j] {
        if i == 0 {
          assert t[0] <= t[j - 1];
        }
      }
    }
  }

  /** Insertion adds exactly `x` to the elements. */
  lemma {:induction false} InsertPerm(x: int, xs: seq<int>)
    ensures multiset(Insert(x, xs)) == multiset(xs) + multiset{x}
  {
    if xs != [] && x > xs[0] {
      InsertPerm(x, xs[1..]);
      assert xs == [xs[0]] + xs[1..];
    }
  }

  /** `std::sort` of the score vector: ascending, same elements. */
  function SortAsc(xs: seq<int>): (r: seq<int>)
    ensures Ascending(r) && multiset(r) == multiset(xs) && |r| == |xs|
  {
    if xs == [] then []
    else
      var t := SortAsc(xs[1..]);
      InsertAscending(xs[0], t);
      InsertPerm(xs[0], t);
      assert xs == [xs[0]] + xs[1..];
      Insert(xs[0], t)
  }

  /** The pair matrix cells `m[n, lo]`, ..., `m[n, hi - 1]`. */
  function Row(m: array2<int>, n: nat, lo: nat, hi: nat): (r: seq<int>)
    requires n < m.Length0 && lo <= hi <= m.Length1
    reads m
    ensures |r| == hi - lo
    decreases hi
  {
    if hi == lo then [] else Row(m, n, lo, hi - 1) + [m[n, hi - 1]]
  }

  /** Entry `k` of a row segment is the cell `m[n, lo + k]`. */
  lemma {:induction false} RowAt(m: array2<int>, n: nat, lo: nat, hi: nat, k: nat)
    requires n < m.Length0 && lo <= hi <= m.Length1 && k < hi - lo
    ensures Row(m, n, lo, hi)[k] == m[n, lo + k]
    decreases hi
  {
    if k < hi - 1 - lo {
      RowAt(m, n, lo, hi - 1, k);
    }
  }

  lemma RowSnoc(m: array2<int>, n: nat, lo: nat, hi: nat)
    requires n < m.Length0 && lo <= hi < m.Length1
    ensures Row(m, n, lo, hi + 1) == Row(m, n, lo, hi) + [m[n, hi]]
  {
  }

  /** The cells above the diagonal in rows `0 .. k-1`, row by row: the
      values `compute_stats` visits. */
  function Upper(m: array2<int>, k: nat): seq<int>
    requires m.Length0 == m.Length1 && k <= m.Length0
    reads m
  {
    if k == 0 then [] else Upper(m, k - 1) + Row(m, k - 1, k, m.Length0)
  }

  /** Every visited cell lies above the diagonal, and every cell above the
      diagonal in the first `k` rows is visited. */
  lemma {:induction false} UpperMembers(m: array2<int>, k: nat)
    requires m.Length0 == m.Length1 && k <= m.Length0
    ensures forall a, b | 0 <= a < k && a < b < m.Length0 :: m[a, b] in Upper(m, k)
    ensures forall x | x in Upper(m, k) :: exists a, b :: 0 <= a < k && a < b < m.Length0 && m[a, b] == x
  {
    if k > 0 {
      UpperMembers(m, k - 1);
      var a := k - 1;
      var row := Row(m, a, k, m.Length0);
      forall b | a < b < m.Length0 ensures m[a, b] in Upper(m, k) {
        RowAt(m, a, k, m.Length0, b - k);
      }
      forall x | x in Upper(m, k) ensures exists a, b :: 0 <= a < k && a < b < m.Length0 && m[a, b] == x {
        if x !in Upper(m, k - 1) {
          var i :| 0 <= i < |row| && row[i] == x;
          RowAt(m, a, k, m.Length0, i);
        }
      }
    }
  }

  /** The entries `compute_stats` appends to `min_together` for row `n`:
      after each cell `(n, c)` the minimum of the row so far. */
  function RowMins(m: array2<int>, n: nat, hi: nat): (r: seq<int>)
    requires n < m.Length0 && n + 1 <= hi <= m.Length1
    reads m
    ensures |r| == hi - n - 1
    decreases hi
  {
    if hi == n + 1 then [] else RowMins(m, n, hi - 1) + [MinFrom(IntMax, Row(m, n, n + 1, hi))]
  }

  lemma RowMinsSnoc(m: array2<int>, n: nat, hi: nat)
    requires n < m.Length0 && n + 1 <= hi < m.Length1
    ensures RowMins(m, n, hi + 1) == RowMins(m, n, hi) + [MinFrom(IntMax, Row(m, n, n + 1, hi + 1))]
  {
  }

  /** The entries appended to `min_together` for rows `0 .. k-1`. */
  function AllMins(m: array2<int>, k: nat): seq<int>
    requires m.Length0 == m.Length1 && k <= m.Length0
    reads m
  {
    if k == 0 then [] else AllMins(m, k - 1) + RowMins(m, k - 1, m.Length0)
  }

  /** With at least two players the first entry appended to `min_together`
      is the pair count of players 0 and 1 alone (capped at `INT_MAX`),
      not a minimum over the schedule. */
  lemma FirstMinTogether(m: array2<int>)
    requires m.Length0 == m.Length1 && m.Length0 >= 2
    ensures |AllMins(m, m.Length0 - 1)| > 0
    ensures AllMins(m, m.Length0 - 1)[0] == (if m[0, 1] < IntMax then m[0, 1] else IntMax)
  {
    var x := m[0, 1];
    AllMinsHead(m, m.Length0 - 1);
    RowMinsHead(m, 0, m.Length0);
    MinFromSnoc(IntMax, [], x);
    assert [] + [x] == [x];
    assert MinFrom(IntMax, [x]) == if x < IntMax then x else IntMax;
  }

  /** The first entry of a row's minima is the first cell alone. */
  lemma {:induction false} RowMinsHead(m: array2<int>, n: nat, hi: nat)
    requires n + 2 <= hi <= m.Length1 && n < m.Length0
    ensures RowMins(m, n, hi)[0] == MinFrom(IntMax, [m[n, n + 1]])
    decreases hi
  {
    if hi == n + 2 {
      assert Row(m, n, n + 1, n + 2) == [m[n, n + 1]];
    } else {
      RowMinsHead(m, n, hi - 1);
    }
  }

  /** The first appended entry comes from row 0. */
  lemma {:induction false} AllMinsHead(m: array2<int>, k: nat)
    requires m.Length0 == m.Length1 && m.Length0 >= 2 && 1 <= k <= m.Length0
    ensures |AllMins(m, k)| > 0 && AllMins(m, k)[0] == RowMins(m, 0, m.Length0)[0]
  {
    if k > 1 {
      AllMinsHead(m, k - 1);
    } else {
      assert AllMins(m, 1) == AllMins(m, 0) + RowMins(m, 0, m.Length0);
    }
  }

  /** The number of occurrences of `x` in `xs`. */
  function Occ(xs: seq<int>, x: int): nat
  {
    if xs == [] then 0 else Occ(xs[..|xs| - 1], x) + (if xs[|xs| - 1] == x then 1 else 0)
  }

  /** `Occ` agrees with the multiplicity of the sequence's multiset. */
  lemma {:induction false} OccMultiset(xs: seq<int>, x: int)
    ensures Occ(xs, x) == multiset(xs)[x]
  {
    if xs != [] {
      OccMultiset(xs[..|xs| - 1], x);
      assert xs == xs[..|xs| - 1] + [xs[|xs| - 1]];
    }
  }

  lemma OccSnoc(xs: seq<int>, y: int, x: int)
    ensures Occ(xs + [y], x) == Occ(xs, x) + (if y == x then 1 else 0)
  {
    assert (xs + [y])[..|xs|] == xs;
  }

  lemma {:induction false} OccAppend(xs: seq<int>, ys: seq<int>, x: int)
    ensures Occ(xs + ys, x) == Occ(xs, x) + Occ(ys, x)
    decreases |ys|
  {
    if ys == [] {
      assert xs + ys == xs;
    } else {
      var init := ys[..|ys| - 1];
      OccAppend(xs, init, x);
      assert (xs + ys)[..|xs + ys| - 1] == xs + init;
    }
  }

  /** `cnt_games_together`: entry `v` is the number of visited cells equal
      to `v`. */
  function Histogram(xs: seq<int>, size: nat): (r: seq<int>)
    ensures |r| == size
  {
    seq(size, v => Occ(xs, v))
  }

  function Sum(xs: seq<int>): int
  {
    if xs == [] then 0 else Sum(xs[..|xs| - 1]) + xs[|xs| - 1]
  }

  /** When every visited value is a valid histogram index, the histogram
      accounts for every visited cell exactly once. */
  lemma HistogramTotal(xs: seq<int>, size: nat)
    requires forall i | 0 <= i < |xs| :: 0 <= xs[i] < size
    ensures Sum(Histogram(xs, size)) == |xs|
  {
    HistogramPrefixSum(xs, size, size);
    CountBelow(xs, size);
    assert Histogram(xs, size)[..size] == Histogram(xs, size);
  }

  /** The number of elements of `xs` below `k`. */
  function Below(xs: seq<int>, k: int): nat
  {
    if xs == [] then 0 else Below(xs[..|xs| - 1], k) + (if 0 <= xs[|xs| - 1] < k then 1 else 0)
  }

  lemma {:induction false} CountBelow(xs: seq<int>, size: nat)
    requires forall i | 0 <= i < |xs| :: 0 <= xs[i] < size
    ensures Below(xs, size) == |xs|
  {
    if xs != [] {
      CountBelow(xs[..|xs| - 1], size);
    }
  }

  lemma {:induction false} BelowStep(xs: seq<int>, k: nat)
    ensures Below(xs, k + 1) == Below(xs, k) + Occ(xs, k)
  {
    if xs != [] {
      BelowStep(xs[..|xs| - 1], k);
    }
  }

  lemma {:induction false} HistogramPrefixSum(xs: seq<int>, size: nat, k: nat)
    requires k <= size
    ensures Sum(Histogram(xs, size)[..k]) == Below(xs, k)
  {
    if k == 0 {
      BelowZero(xs);
    } else {
      HistogramPrefixSum(xs, size, k - 1);
      BelowStep(xs, k - 1);
      assert Histogram(xs, size)[..k][..k - 1] == Histogram(xs, size)[..k - 1];
    }
    if k == size {
      assert Histogram(xs, size)[..k] == Histogram(xs, size);
    }
  }

  lemma {:induction false} BelowZero(xs: seq<int>)
    ensures Below(xs, 0) == 0
  {
    if xs != [] {
      BelowZero(xs[..|xs| - 1]);
    }
  }

  /** The histogram's bucket 0 is empty exactly when every pair of players
      has shared a game. */
  lemma NoZeroBucket(m: array2<int>, size: nat)
    requires m.Length0 == m.Length1 && m.Length0 >= 1 && size > 0
    ensures (Histogram(Upper(m, m.Length0 - 1), size)[0] == 0)
            <==> forall a, b | 0 <= a < b < m.Length0 :: m[a, b] != 0
  {
    var n := m.Length0;
    UpperMembers(m, n - 1);
    var xs := Upper(m, n - 1);
    OccMultiset(xs, 0);
    assert multiset(xs)[0] == 0 <==> 0 !in xs;
    if 0 !in xs {
      forall a, b | 0 <= a < b < n ensures m[a, b] != 0 {
        assert a < n - 1;
      }
    }
  }

  /** `min_games`: the least games-per-player count over the players
      visited; HT15 skips players without games, VT15 includes them;
      `INT_MAX` when nothing was counted. */
  function MinGames(v: Variant, counts: seq<int>): (r: int)
    ensures r <= IntMax
  {
    if counts == [] then IntMax
    else
      var m := MinGames(v, counts[..|counts| - 1]);
      var x := counts[|counts| - 1];
      if v == HT15 && x <= 0 then m
      else if x < m then x
      else m
  }

  /** The least count is a lower bound of every counted player's count. */
  lemma {:induction false} MinGamesBound(v: Variant, counts: seq<int>)
    ensures forall k | 0 <= k < |counts| && (v != HT15 || counts[k] > 0) :: MinGames(v, counts) <= counts[k]
  {
    if counts != [] {
      MinGamesBound(v, counts[..|counts| - 1]);
    }
  }

  /** The least count is `INT_MAX` or some counted player's count. */
  lemma {:induction false} MinGamesAttained(v: Variant, counts: seq<int>)
    ensures MinGames(v, counts) == IntMax
            || exists k | 0 <= k < |counts| :: MinGames(v, counts) == counts[k] && (v != HT15 || counts[k] > 0)
  {
    if counts != [] {
      var init := counts[..|counts| - 1];
      MinGamesAttained(v, init);
      if MinGames(v, counts) != IntMax && MinGames(v, counts) == MinGames(v, init) {
        var k :| 0 <= k < |init| && MinGames(v, init) == init[k] && (v != HT15 || init[k] > 0);
        assert counts[k] == init[k];
      }
    }
  }

  /** The score `compute_stats` records for each game. */
  function Scores(v: Variant, games: seq<Game>): (r: seq<int>)
    requires v != Y2014 ==> forall k | 0 <= k < |games| :: games[k].count != 0
    ensures |r| == |games|
  {
    if games == [] then [] else Scores(v, games[..|games| - 1]) + [GameScore(v, games[|games| - 1])]
  }

  function Ledares(games: seq<Game>): (r: seq<int>)
    ensures |r| == |games| && forall k | 0 <= k < |games| :: r[k] == games[k].ledare
  {
    if games == [] then [] else Ledares(games[..|games| - 1]) + [games[|games| - 1].ledare]
  }

  /** The number of games whose goalkeeper total is positive. */
  function GoalkeeperGames(games: seq<Game>): (r: nat)
    ensures r <= |games|
    ensures r == 0 <==> forall k | 0 <= k < |games| :: games[k].goalkeeper <= 0
  {
    if games == [] then 0
    else GoalkeeperGames(games[..|games| - 1]) + (if games[|games| - 1].goalkeeper > 0 then 1 else 0)
  }

  lemma GamesSnoc(v: Variant, games: seq<Game>, k: nat)
    requires k < |games|
    requires v != Y2014 ==> forall i | 0 <= i < |games| :: games[i].count != 0
    ensures Scores(v, games[..k + 1]) == Scores(v, games[..k]) + [GameScore(v, games[k])]
    ensures Ledares(games[..k + 1]) == Ledares(games[..k]) + [games[k].ledare]
    ensures GoalkeeperGames(games[..k + 1]) == GoalkeeperGames(games[..k]) + (if games[k].goalkeeper > 0 then 1 else 0)
  {
    assert games[..k + 1][..k] == games[..k];
  }

  /** The median `compute_stats` records, `sorted[len / 2]`, lies between
      the recorded minimum and maximum. */
  lemma MedianBetween(xs: seq<int>)
    requires |xs| > 0
    ensures MinFrom(IntMax, xs) <= SortAsc(xs)[|xs| / 2] <= MaxFrom(0, xs)
  {
    var s := SortAsc(xs);
    var x := s[|xs| / 2];
    assert x in multiset(s);
    assert x in xs;
    MinFromBound(IntMax, xs);
    MaxFromBound(0, xs);
  }

  /** One more pair count `val` recorded in the histogram. */
  lemma CountStep(cnt0: seq<int>, cnt: seq<int>, row: seq<int>, val: int)
    requires |cnt| == |cnt0| && 0 <= val < |cnt|
    requires forall x | 0 <= x < |cnt| :: cnt[x] == cnt0[x] + Occ(row, x)
    ensures forall x | 0 <= x < |cnt| :: cnt[val := cnt[val] + 1][x] == cnt0[x] + Occ(row + [val], x)
  {
    forall x | 0 <= x < |cnt| ensures cnt[val := cnt[val] + 1][x] == cnt0[x] + Occ(row + [val], x) {
      OccSnoc(row, val, x);
    }
  }

  /** The row loop's variables after the cells `(a, a+1) .. (a, b-1)`. */
  ghost predicate RowTallied(m: array2<int>, a: nat, b: nat, cnt0: seq<int>, cnt: seq<int>, rowMin: int, mins: seq<int>)
    requires a < b <= m.Length0 == m.Length1
    reads m
  {
    && |cnt| == |cnt0|
    && (forall x | 0 <= x < |cnt| :: cnt[x] == cnt0[x] + Occ(Row(m, a, a + 1, b), x))
    && rowMin == MinFrom(IntMax, Row(m, a, a + 1, b))
    && mins == RowMins(m, a, b)
  }

  /** One cell `(a, b)` of the pair loop: the histogram, the row minimum
      and the recorded minima move on to the row segment that ends at `b`. */
  lemma TallyStep(m: array2<int>, a: nat, b: nat, cnt0: seq<int>, cnt: seq<int>, rowMin: int, mins: seq<int>)
    requires m.Length0 == m.Length1 && a < b < m.Length0 && 0 <= m[a, b] < |cnt|
    requires RowTallied(m, a, b, cnt0, cnt, rowMin, mins)
    ensures var val := m[a, b];
            var rowMin' := if val < rowMin then val else rowMin;
            RowTallied(m, a, b + 1, cnt0, cnt[val := cnt[val] + 1], rowMin', mins + [rowMin'])
  {
    var row, val := Row(m, a, a + 1, b), m[a, b];
    RowSnoc(m, a, a + 1, b);
    MinFromSnoc(IntMax, row, val);
    RowMinsSnoc(m, a, b);
    CountStep(cnt0, cnt, row, val);
  }

  /** The inner loop of `compute_stats` over row `a`: each cell right of
      the diagonal bumps its histogram bucket and appends the row minimum so
      far. */
  method TallyRow(m: array2<int>, a: nat, cnt0: seq<int>) returns (cnt: seq<int>, mins: seq<int>)
    requires m.Length0 == m.Length1 && a < m.Length0
    requires forall b | a < b < m.Length0 :: 0 <= m[a, b] < |cnt0|
    ensures |cnt| == |cnt0|
    ensures forall x | 0 <= x < |cnt| :: cnt[x] == cnt0[x] + Occ(Row(m, a, a + 1, m.Length0), x)
    ensures mins == RowMins(m, a, m.Length0)
  {
    cnt := cnt0;
    mins := [];
    var rowMin := IntMax;
    ghost var none := Row(m, a, a + 1, a + 1);
    assert none == [];
    assert forall x :: Occ(none, x) == 0;
    for b := a + 1 to m.Length0
      invariant RowTallied(m, a, b, cnt0, cnt, rowMin, mins)
    {
      var val := m[a, b];
      TallyStep(m, a, b, cnt0, cnt, rowMin, mins);
      cnt := cnt[val := cnt[val] + 1];
      if val < rowMin {
        rowMin := val;
      }
      mins := mins + [rowMin];
    }
  }

  /** The pair part of `compute_stats`: the histogram, the appended row
      minima and, per variant, the least and most games of players
      `0 .. n-2`. */
  method TallyPairs(v: Variant, m: array2<int>, gpp: seq<int>, size: nat)
    returns (cnt: seq<int>, mins: seq<int>, minGames: int, maxGames: int)
    requires m.Length0 == m.Length1 && m.Length0 >= 1 && |gpp| == m.Length0
    requires forall a, b | 0 <= a < b < m.Length0 :: 0 <= m[a, b] < size
    ensures cnt == Histogram(Upper(m, m.Length0 - 1), size)
    ensures mins == AllMins(m, m.Length0 - 1)
    ensures minGames == if v == Y2014 then IntMax else MinGames(v, gpp[..m.Length0 - 1])
    ensures maxGames == if v == HT15 then MaxFrom(0, gpp[..m.Length0 - 1]) else 0
  {
    var n := m.Length0;
    cnt := seq(size, _ => 0);
    mins := [];
    minGames := IntMax;
    maxGames := 0;
    for a := 0 to n - 1
      invariant |cnt| == size && forall x | 0 <= x < size :: cnt[x] == Occ(Upper(m, a), x)
      invariant mins == AllMins(m, a)
      invariant minGames == if v == Y2014 then IntMax else MinGames(v, gpp[..a])
      invariant maxGames == if v == HT15 then MaxFrom(0, gpp[..a]) else 0
    {
      var rowMins;
      cnt, rowMins := TallyRow(m, a, cnt);
      PairsSnoc(m, a);
      forall x | 0 <= x < size ensures cnt[x] == Occ(Upper(m, a + 1), x) {
        OccAppend(Upper(m, a), Row(m, a, a + 1, n), x);
      }
      mins := mins + rowMins;
      PrefixSnoc(gpp, a);
      minGames, maxGames := TallyPlayer(v, gpp[..a], gpp[a], minGames, maxGames);
    }
  }

  /** The games-per-player step of the outer loop of `compute_stats` for
      one player with `x` games, after players `xs`. */
  method TallyPlayer(v: Variant, ghost xs: seq<int>, x: int, minGames0: int, maxGames0: int)
    returns (minGames: int, maxGames: int)
    requires minGames0 == if v == Y2014 then IntMax else MinGames(v, xs)
    requires maxGames0 == if v == HT15 then MaxFrom(0, xs) else 0
    ensures minGames == if v == Y2014 then IntMax else MinGames(v, xs + [x])
    ensures maxGames == if v == HT15 then MaxFrom(0, xs + [x]) else 0
  {
    MaxFromSnoc(0, xs, x);
    MinGamesSnoc(v, xs, x);
    minGames, maxGames := minGames0, maxGames0;
    if v == HT15 {
      if x > 0 {
        if x < minGames {
          minGames := x;
        }
      }
      if x > maxGames {
        maxGames := x;
      }
    } else if v == VT15 {
      if x < minGames {
        minGames := x;
      }
    }
  }

  lemma PairsSnoc(m: array2<int>, a: nat)
    requires m.Length0 == m.Length1 && a < m.Length0
    ensures Upper(m, a + 1) == Upper(m, a) + Row(m, a, a + 1, m.Length0)
    ensures AllMins(m, a + 1) == AllMins(m, a) + RowMins(m, a, m.Length0)
  {
  }

  lemma MinGamesSnoc(v: Variant, xs: seq<int>, x: int)
    ensures MinGames(v, xs + [x]) == if v == HT15 && x <= 0 then MinGames(v, xs)
                                     else if x < MinGames(v, xs) then x else MinGames(v, xs)
  {
    assert (xs + [x])[..|xs|] == xs;
  }

  /** The score loop's variables after the games `games[..k]`. */
  ghost predicate Tallied(v: Variant, games: seq<Game>, k: nat, scores: seq<int>,
                          minScore: int, maxScore: int, minLedare: int, cntGoalkeeper: int)
    requires k <= |games|
    requires v != Y2014 ==> forall i | 0 <= i < |games| :: games[i].count != 0
  {
    && scores == Scores(v, games[..k])
    && minScore == MinFrom(IntMax, scores) && maxScore == MaxFrom(0, scores)
    && minLedare == MinFrom(IntMax, Ledares(games[..k]))
    && cntGoalkeeper == GoalkeeperGames(games[..k])
  }

  /** One game of the score loop: the lists and extremes move on to the
      prefix that ends at game `k`. */
  lemma TallyGamesStep(v: Variant, games: seq<Game>, k: nat, scores: seq<int>,
                       minScore: int, maxScore: int, minLedare: int, cntGoalkeeper: int)
    requires k < |games|
    requires v != Y2014 ==> forall i | 0 <= i < |games| :: games[i].count != 0
    requires Tallied(v, games, k, scores, minScore, maxScore, minLedare, cntGoalkeeper)
    ensures var score, g := GameScore(v, games[k]), games[k];
            Tallied(v, games, k + 1, scores + [score],
                    if score < minScore then score else minScore,
                    if score > maxScore then score else maxScore,
                    if g.ledare < minLedare then g.ledare else minLedare,
                    if g.goalkeeper > 0 then cntGoalkeeper + 1 else cntGoalkeeper)
  {
    GamesSnoc(v, games, k);
    MinFromSnoc(IntMax, scores, GameScore(v, games[k]));
    MaxFromSnoc(0, scores, GameScore(v, games[k]));
    MinFromSnoc(IntMax, Ledares(games[..k]), games[k].ledare);
  }

  /** The game part of `compute_stats`: the recorded scores, their minimum
      and maximum, the least leader count and the goalkeeper games. */
  method TallyGames(v: Variant, games: seq<Game>)
    returns (scores: seq<int>, minScore: int, maxScore: int, minLedare: int, cntGoalkeeper: int)
    requires v != Y2014 ==> forall k | 0 <= k < |games| :: games[k].count != 0
    ensures scores == Scores(v, games)
    ensures minScore == MinFrom(IntMax, scores) && maxScore == MaxFrom(0, scores)
    ensures minLedare == MinFrom(IntMax, Ledares(games))
    ensures cntGoalkeeper == GoalkeeperGames(games)
  {
    cntGoalkeeper := 0;
    minScore := IntMax;
    maxScore := 0;
    minLedare := IntMax;
    scores := [];
    for k := 0 to |games|
      invariant Tallied(v, games, k, scores, minScore, maxScore, minLedare, cntGoalkeeper)
    {
      var g := games[k];
      var score := GameScore(v, g);
      TallyGamesStep(v, games, k, scores, minScore, maxScore, minLedare, cntGoalkeeper);
      scores := scores + [score];
      if score < minScore {
        minScore := score;
      }
      if score > maxScore {
        maxScore := score;
      }
      if g.ledare < minLedare {
        minLedare := g.ledare;
      }
      if g.goalkeeper > 0 {
        cntGoalkeeper := cntGoalkeeper + 1;
      }
    }
    assert games[..|games|] == games;
  }

  /** The number of entries the source gives `cnt_games_together`: one
      per game, so the indices run from 0 to `|games| - 1`. */
  function SourceBuckets(games: seq<Game>): (r: nat)
    ensures r == |games|
  {
    |games|
  }

  /** One entry per possible pair count, 0 to `|games|`. */
  function Buckets(games: seq<Game>): (r: nat)
    ensures r == |games| + 1
  {
    |games| + 1
  }

  /** A query counts every game exactly when every game satisfies it. */
  lemma {:induction false} CountAll(gs: seq<Game>, k: Query)
    ensures Count(gs, k) == |gs| <==> forall i | 0 <= i < |gs| :: Holds(k, gs[i])
  {
    if gs != [] {
      CountAll(gs[1..], k);
      if Count(gs, k) == |gs| {
        forall i | 0 <= i < |gs| ensures Holds(k, gs[i]) {
          if i > 0 {
            assert gs[i] == gs[1..][i - 1];
          }
        }
      }
      if forall i | 0 <= i < |gs| :: Holds(k, gs[i]) {
        assert forall i | 0 <= i < |gs[1..]| :: gs[1..][i] == gs[i + 1];
      }
    }
  }

  /** In a valid schedule a pair count never exceeds the number of games,
      and reaches it exactly when the two players share every game: then
      `cnt_games_together[val]` as the source sizes it indexes one past its
      last entry. */
  lemma PairCountReach(s: Sched, a: nat, b: nat)
    requires s.Valid() && a < |s.roster| && b < |s.roster| && a != b
    ensures 0 <= s.together[a, b] <= SourceBuckets(s.games)
    ensures s.together[a, b] == SourceBuckets(s.games)
            <==> forall k | 0 <= k < |s.games| :: Holds(HasPair(a, b), s.games[k])
  {
    CountAll(s.games, HasPair(a, b));
  }

  /** A valid schedule that reaches the bound: one game holding players 0
      and 1.  Their pair count is then the number of games, so
      `cnt_games_together[val]`, sized as the source sizes it, indexes one
      past its last entry. */
  method PairCountReached() returns (s: Sched)
    ensures s.Valid() && |s.roster| == 2 && |s.games| == 1
    ensures s.together[0, 1] == SourceBuckets(s.games)
  {
    var p := Player(0, 0, 0, 1, 0);
    var g := Game(0, 0, 0, 0, 0, [], 0, 0);
    assert IsWord(0) by { assert Pow2(0) == 1; Pow2Mono(0, WordBits); }
    s := new Sched.Empty(HT15, [p, p], [g]);
    ZeroBits(0);
    ZeroBits(1);
    s.AddPlayerToGame(0, 0);
    assert !TestBit(s.roundMask[0], 1);
    s.AddPlayerToGame(0, 1);
    PairCountReach(s, 0, 1);
    assert Holds(HasPair(0, 1), s.games[0]);
  }

  /** With one entry more, every pair count of a valid schedule is an index
      of the histogram. */
  lemma PairCountsFit(s: Sched)
    requires s.Valid()
    ensures forall a, b | 0 <= a < b < |s.roster| :: 0 <= s.together[a, b] < Buckets(s.games)
  {
    forall a, b | 0 <= a < b < |s.roster|
      ensures 0 <= s.together[a, b] < Buckets(s.games)
    {
      PairCountReach(s, a, b);
    }
  }

  /** The corrected histogram of a valid schedule counts every visited
      pair exactly once. */
  lemma PairHistogramTotal(s: Sched)
    requires s.Valid() && |s.roster| >= 1
    ensures Sum(Histogram(Upper(s.together, |s.roster| - 1), Buckets(s.games)))
            == |Upper(s.together, |s.roster| - 1)|
  {
    var m := s.together;
    var xs := Upper(m, |s.roster| - 1);
    PairCountsFit(s);
    UpperMembers(m, |s.roster| - 1);
    forall i | 0 <= i < |xs| ensures 0 <= xs[i] < Buckets(s.games) {
      assert xs[i] in xs;
    }
    HistogramTotal(xs, Buckets(s.games));
  }

  /** What `compute_stats` leaves in `stats`, given the pair matrix `m`,
      the games per player and the games: the histogram of the pair counts
      above the diagonal (with one entry per possible count, one more than
      the source allocates), `min_together` extended by the running row
      minima, the per-variant least and most games of players `0 .. n-2`,
      and the score, leader and goalkeeper summaries.  The source reads
      `players.size() - 1` as an unsigned bound and `scores[scores.size() /
      2]`, so it needs a player and a game, and HT15/VT15 divide by each
      game's `count`. */
  function Summary(v: Variant, m: array2<int>, gpp: seq<int>, games: seq<Game>, st: Stats): (r: Stats)
    requires m.Length0 == m.Length1 && m.Length0 >= 1 && |gpp| == m.Length0 && |games| >= 1
    requires v != Y2014 ==> forall k | 0 <= k < |games| :: games[k].count != 0
    reads m
    ensures r.swaps == st.swaps && r.failedSwap == st.failedSwap
  {
    var n := m.Length0;
    var scores := Scores(v, games);
    st.(cntGamesTogether := Histogram(Upper(m, n - 1), Buckets(games)),
        minTogether := st.minTogether + AllMins(m, n - 1),
        minGames := if v == Y2014 then st.minGames else MinGames(v, gpp[..n - 1]),
        maxGames := if v == HT15 then MaxFrom(0, gpp[..n - 1]) else st.maxGames,
        cntGoalkeeper := GoalkeeperGames(games),
        minScore := MinFrom(IntMax, scores),
        medianScore := SortAsc(scores)[|games| / 2],
        maxScore := MaxFrom(0, scores),
        minLedare := MinFrom(IntMax, Ledares(games)))
  }

  /** `Summary` field by field, with the matrix size written out. */
  lemma SummaryOf(v: Variant, m: array2<int>, gpp: seq<int>, games: seq<Game>, st: Stats)
    requires m.Length0 == m.Length1 && m.Length0 >= 1 && |gpp| == m.Length0 && |games| >= 1
    requires v != Y2014 ==> forall k | 0 <= k < |games| :: games[k].count != 0
    ensures |SortAsc(Scores(v, games))| == |games|
    ensures Summary(v, m, gpp, games, st)
            == st.(cntGamesTogether := Histogram(Upper(m, m.Length0 - 1), Buckets(games)),
                   minTogether := st.minTogether + AllMins(m, m.Length0 - 1),
                   minGames := if v == Y2014 then st.minGames else MinGames(v, gpp[..m.Length0 - 1]),
                   maxGames := if v == HT15 then MaxFrom(0, gpp[..m.Length0 - 1]) else st.maxGames,
                   cntGoalkeeper := GoalkeeperGames(games),
                   minScore := MinFrom(IntMax, Scores(v, games)),
                   medianScore := SortAsc(Scores(v, games))[|games| / 2],
                   maxScore := MaxFrom(0, Scores(v, games)),
                   minLedare := MinFrom(IntMax, Ledares(games)))
  {
  }

  /** The two loops of `compute_stats`, on the values they read. */
  method Summarise(v: Variant, m: array2<int>, gpp: seq<int>, games: seq<Game>, st0: Stats) returns (st: Stats)
    requires m.Length0 == m.Length1 && m.Length0 >= 1 && |gpp| == m.Length0 && |games| >= 1
    requires forall a, b | 0 <= a < b < m.Length0 :: 0 <= m[a, b] < Buckets(games)
    requires v != Y2014 ==> forall k | 0 <= k < |games| :: games[k].count != 0
    ensures st == Summary(v, m, gpp, games, st0)
  {
    var cnt, mins, minGames, maxGames := TallyPairs(v, m, gpp, Buckets(games));
    var scores, minScore, maxScore, minLedare, cntGoalkeeper := TallyGames(v, games);
    var sorted := SortAsc(scores);
    SummaryOf(v, m, gpp, games, st0);
    st := st0.(cntGamesTogether := cnt, minTogether := st0.minTogether + mins,
               minGames := if v == Y2014 then st0.minGames else minGames,
               maxGames := if v == HT15 then maxGames else st0.maxGames,
               cntGoalkeeper := cntGoalkeeper, minScore := minScore,
               medianScore := sorted[|sorted| / 2], maxScore := maxScore,
               minLedare := minLedare);
  }

  /** How `compute_stats` ends.  Without players the loop bound
      `players.size() - 1` wraps around and `players[0]` reads past the
      end; in HT15 and VT15 a game without counted players divides by zero
      in `get_score`; without games `scores[scores.size() / 2]` reads past
      the end.  Each of these ends the program. */
  datatype StatsEnd = Computed | NoPlayers | EmptyGame | NoGames

  /** `compute_stats` runs to its end: there is a player and a game, and in
      HT15 and VT15 every game has counted players. */
  predicate StatsComputable(v: Variant, players: nat, games: seq<Game>)
  {
    players >= 1 && |games| >= 1 && (v != Y2014 ==> forall k | 0 <= k < |games| :: games[k].count != 0)
  }

  /** `compute_stats`: replaces the statistics of `s` by their summary,
      changing nothing else; on the three faults the statistics stay as
      they were. */
  method ComputeStats(s: Sched) returns (r: StatsEnd)
    requires s.Valid()
    modifies s`stats
    ensures r == NoPlayers <==> |s.roster| == 0
    ensures r == EmptyGame <==> |s.roster| >= 1 && s.variant != Y2014
                                && exists k | 0 <= k < |s.games| :: s.games[k].count == 0
    ensures r == NoGames <==> |s.roster| >= 1 && |s.games| == 0
    ensures r == Computed <==> StatsComputable(s.variant, |s.roster|, s.games)
    ensures r == Computed ==> s.stats == old(Summary(s.variant, s.together, s.gamesPerPlayer, s.games, s.stats))
    ensures r != Computed ==> s.stats == old(s.stats)
  {
    if |s.roster| == 0 {
      return NoPlayers;
    }
    if s.variant != Y2014 && exists k | 0 <= k < |s.games| :: s.games[k].count == 0 {
      return EmptyGame;
    }
    if |s.games| == 0 {
      return NoGames;
    }
    PairCountsFit(s);
    s.stats := Summarise(s.variant, s.together, s.gamesPerPlayer, s.games, s.stats);
    return Computed;
  }
}
