/** `pct` and `compare`: the ranking of two schedules by their statistics.
    `compare(s1, s2)` is positive when `s2` is the better schedule. */
module Ranking {
  import opened CArith
  import opened Model

  /** The result of a ranking: the value `compare` returns, the division
      by zero that `pct` performs when its first argument is zero, or a read
      of element 0 of an empty `min_together` (a roster of one player has
      no pairs) or `cnt_games_together`, past the end of the vector. */
  datatype Outcome = Ranked(res: int) | DivByZero | PastEnd

  /** `pct(val1, val2)`: the change from `val1` to `val2` in whole percent
      of `val1`, truncated toward zero; undefined when `val1` is zero. */
  function Pct(val1: int, val2: int): (r: Option<int>)
    ensures r.None? <==> val1 == 0
    ensures r.Some? ==> Abs(r.value) * Abs(val1) <= 100 * Abs(val1 - val2) < (Abs(r.value) + 1) * Abs(val1)
  {
    if val1 == 0 then None
    else
      CDivTruncates(100 * (val1 - val2), val1);
      Some(CDiv(100 * (val1 - val2), val1))
  }

  /** The percentage of a value against itself is zero. */
  lemma PctSelf(x: int)
    requires x != 0
    ensures Pct(x, x) == Some(0)
  {
  }

  /** Both vectors `compare` reads element 0 of are non-empty. */
  predicate Comparable(a: Stats)
  {
    |a.minTogether| > 0 && |a.cntGamesTogether| > 0
  }

  /** The threshold rules of `compare`, in their order, up to and including
      the `min_together[0]` difference rule; `None` when none decides.
      `target` is the global `games_per_player`.  With `fixed` false the
      second goalkeeper rule compares `s2` with itself, as the source does;
      with `fixed` true it compares `s1` with `s2`.  The `min_together[0]`
      rules read `s1`'s entry, then `s2`'s unless `s1`'s is negative, and
      the difference rule reads both; an empty vector there is `PastEnd`. */
  function Thresholds(v: Variant, target: int, a: Stats, b: Stats, fixed: bool): (r: Option<Outcome>)
    ensures r.Some? ==> r.value.Ranked? || r.value.PastEnd?
    ensures r == Some(PastEnd) ==> !Comparable(a) || !Comparable(b)
  {
    if v == HT15 && a.minGames < target && b.minGames >= target then Some(Ranked(1))
    else if v == HT15 && a.minGames >= target && b.minGames < target then Some(Ranked(-1))
    else if v == HT15 && a.maxGames < target + 2 && b.maxGames >= target + 2 then Some(Ranked(1))
    else if v == HT15 && a.maxGames >= target + 2 && b.maxGames < target + 2 then Some(Ranked(-1))
    else if v == VT15 && a.minGames != b.minGames then Some(Ranked(b.minGames - a.minGames))
    else if a.minLedare < 2 && b.minLedare >= 2 then Some(Ranked(1))
    else if a.minLedare >= 2 && b.minLedare < 2 then Some(Ranked(-1))
    else if |a.minTogether| == 0 then Some(PastEnd)
    else if a.minTogether[0] >= 0 && |b.minTogether| == 0 then Some(PastEnd)
    else if a.minTogether[0] == 0 && b.minTogether[0] > 0 then Some(Ranked(1))
    else if a.minTogether[0] > 0 && b.minTogether[0] == 0 then Some(Ranked(-1))
    else if a.cntGoalkeeper > b.cntGoalkeeper then Some(Ranked(-1))
    else if (if fixed then a.cntGoalkeeper else b.cntGoalkeeper) < b.cntGoalkeeper then Some(Ranked(1))
    else if v != Y2014 && |b.minTogether| == 0 then Some(PastEnd)
    else if v != Y2014 && Abs(a.minTogether[0] - b.minTogether[0]) > 5 then Some(Ranked(b.minTogether[0] - a.minTogether[0]))
    else None
  }

  /** The score rules that follow: minimum score, median score, the number
      of pairs that never met, maximum score. */
  function ScoreRules(a: Stats, b: Stats): (r: Outcome)
    ensures r == DivByZero ==> a.minScore == 0 || a.medianScore == 0 || a.maxScore == 0
    ensures r == PastEnd ==> |a.cntGamesTogether| == 0 || |b.cntGamesTogether| == 0
  {
    match Pct(a.minScore, b.minScore)
    case None => DivByZero
    case Some(minPct) =>
      if Abs(minPct) > 10 then Ranked(b.minScore - a.minScore)
      else match Pct(a.medianScore, b.medianScore)
      case None => DivByZero
      case Some(medPct) =>
        if Abs(medPct) > 10 then Ranked(b.medianScore - a.medianScore)
        else if |a.cntGamesTogether| == 0 || |b.cntGamesTogether| == 0 then PastEnd
        else
          var res := a.cntGamesTogether[0] - b.cntGamesTogether[0];
          if Abs(res) > 10 then Ranked(res)
          else match Pct(a.maxScore, b.maxScore)
          case None => DivByZero
          case Some(maxPct) =>
            if Abs(maxPct) > 10 then Ranked(b.maxScore - a.maxScore) else Ranked(0)
  }

  /** `compare`: the threshold rules, then the score rules.  It reads past
      the end of a vector only when one of the two statistics has an empty
      `min_together` or `cnt_games_together`. */
  function CompareWith(v: Variant, target: int, a: Stats, b: Stats, fixed: bool): (r: Outcome)
    ensures r == PastEnd ==> !Comparable(a) || !Comparable(b)
  {
    match Thresholds(v, target, a, b, fixed)
    case Some(o) => o
    case None => ScoreRules(a, b)
  }

  /** `compare` as the source writes it, for each variant. */
  function Compare(v: Variant, target: int, a: Stats, b: Stats): Outcome
  {
    CompareWith(v, target, a, b, false)
  }

  /** `compare` with the second goalkeeper rule comparing `s1` with `s2`. */
  function CompareFixed(v: Variant, target: int, a: Stats, b: Stats): Outcome
  {
    CompareWith(v, target, a, b, true)
  }

  /** A schedule ranks equal to itself exactly when the three scores `pct`
      divides by are non-zero; otherwise the comparison divides by zero. */
  lemma CompareSelf(v: Variant, target: int, a: Stats, fixed: bool)
    requires Comparable(a)
    ensures CompareWith(v, target, a, a, fixed)
            == if a.minScore != 0 && a.medianScore != 0 && a.maxScore != 0 then Ranked(0) else DivByZero
  {
    assert Thresholds(v, target, a, a, fixed) == None;
    if a.minScore != 0 {
      PctSelf(a.minScore);
      if a.medianScore != 0 {
        PctSelf(a.medianScore);
        if a.maxScore != 0 {
          PctSelf(a.maxScore);
        }
      }
    }
  }

  /** The corrected threshold rules are antisymmetric: swapping the two
      schedules negates the verdict, and leaves it undecided when it was. */
  lemma ThresholdsAntisymmetric(v: Variant, target: int, a: Stats, b: Stats)
    requires Comparable(a) && Comparable(b)
    ensures Thresholds(v, target, b, a, true)
            == match Thresholds(v, target, a, b, true)
               case Some(Ranked(x)) => Some(Ranked(-x))
               case other => other
  {
  }

  /** A schedule whose `min_together` is empty (one player, so no pairs)
      makes `compare` read past the end as `s1` once the games-played and
      leader rules leave the two schedules tied. */
  lemma EmptyMinTogetherPastEnd(v: Variant, target: int, a: Stats, b: Stats, fixed: bool)
    requires |a.minTogether| == 0
    requires a.minGames == b.minGames && a.maxGames == b.maxGames && (a.minLedare < 2 <==> b.minLedare < 2)
    ensures CompareWith(v, target, a, b, fixed) == PastEnd
  {
  }

  /** As written, a schedule with fewer goalkeeper games loses against one
      with more, but not the other way round: the second goalkeeper rule
      never fires, and the comparison goes on to the score rules. */
  lemma GoalkeeperRuleOneSided(v: Variant, target: int)
    ensures var a := Stats([1], [0], target, target + 2, 1, 50, 50, 50, 2, 0, []);
            var b := a.(cntGoalkeeper := 2);
            && Compare(v, target, b, a) == Ranked(-1)
            && Compare(v, target, a, b) == Ranked(0)
            && CompareFixed(v, target, a, b) == Ranked(1)
  {
    var a := Stats([1], [0], target, target + 2, 1, 50, 50, 50, 2, 0, []);
    var b := a.(cntGoalkeeper := 2);
    PctSelf(50);
    assert Thresholds(v, target, a, b, false) == None;
    assert Thresholds(v, target, a, b, true) == Some(Ranked(1));
  }

  /** HT15 ranks a schedule whose least-played player reaches the target
      above one whose least-played player does not, in both orders. */
  lemma MinGamesFirst(target: int, a: Stats, b: Stats, fixed: bool)
    requires Comparable(a) && Comparable(b)
    requires a.minGames < target <= b.minGames
    ensures CompareWith(HT15, target, a, b, fixed) == Ranked(1)
    ensures CompareWith(HT15, target, b, a, fixed) == Ranked(-1)
  {
  }

  /** VT15 decides on `min_games` alone whenever the two differ, and the
      verdict is the difference, antisymmetric in the two schedules. */
  lemma VT15MinGamesDecides(target: int, a: Stats, b: Stats, fixed: bool)
    requires Comparable(a) && Comparable(b)
    requires a.minGames != b.minGames
    ensures CompareWith(VT15, target, a, b, fixed) == Ranked(b.minGames - a.minGames)
    ensures CompareWith(VT15, target, b, a, fixed) == Ranked(-(b.minGames - a.minGames))
  {
  }

  /** 2014 has no games-played rules: its verdict ignores `min_games`,
      `max_games` and the target. */
  lemma Y2014IgnoresGames(target: int, target': int, a: Stats, b: Stats, a': Stats, b': Stats, fixed: bool)
    requires Comparable(a) && Comparable(b)
    requires a' == a.(minGames := a'.minGames, maxGames := a'.maxGames)
    requires b' == b.(minGames := b'.minGames, maxGames := b'.maxGames)
    ensures CompareWith(Y2014, target, a, b, fixed) == CompareWith(Y2014, target', a', b', fixed)
  {
  }

  /** 2014 has no rule on the size of the `min_together[0]` difference: two
      schedules that tie on everything else rank equal however far apart
      their first pair counts are, as long as both are non-zero. */
  lemma Y2014NoTogetherRule(target: int, a: Stats, t: int, fixed: bool)
    requires Comparable(a) && a.minTogether[0] > 0 && t > 0
    requires a.minScore != 0 && a.medianScore != 0 && a.maxScore != 0
    ensures var b := a.(minTogether := [t] + a.minTogether[1..]);
            && CompareWith(Y2014, target, a, b, fixed) == Ranked(0)
            && (Abs(a.minTogether[0] - t) > 5 ==> CompareWith(HT15, target, a, b, fixed) == Ranked(t - a.minTogether[0]))
  {
    PctSelf(a.minScore);
    PctSelf(a.medianScore);
    PctSelf(a.maxScore);
  }
}
