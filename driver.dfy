/** The hill-climbing loop of `main`: each iteration builds a candidate
    schedule, ranks it against the current one with `compare` and keeps the
    better.  Building and ranking are outside this module: the loop is
    driven by the sequence of `compare(s, s2)` results, one per iteration,
    and the end of that sequence stands for the `stopnow` flag that the
    signal handler raises. */
module Driver {
  import opened Model

  /** How an iteration builds its candidate. */
  datatype Move =
    | PerturbCurrent   // `copy_sched(s)` then `perm0` (2014: `permutate`)
    | PerturbBase      // `copy_sched(base)` then `perm0`
    | Fresh            // a new base schedule

  /** The `switch (streak % 4)` of HT15 and VT15 for a non-negative
      `streak`: remainders 2 and 3 build a fresh schedule.  Its `case 4`
      (`create_base_sched`) cannot be reached, since the remainder is below
      4, and has no counterpart here.  2014 always perturbs the current
      schedule. */
  function MoveFor(v: Variant, streak: nat): (r: Move)
    ensures v == Y2014 ==> r == PerturbCurrent
    ensures v != Y2014 ==> (r == PerturbCurrent <==> streak % 4 == 0)
    ensures v != Y2014 ==> (r == PerturbBase <==> streak % 4 == 1)
  {
    if v == Y2014 then PerturbCurrent
    else if streak % 4 == 0 then PerturbCurrent
    else if streak % 4 == 1 then PerturbBase
    else Fresh
  }

  /** The bound on `streak` in the loop condition: 100000 in 2014, 500000
      later. */
  function StreakLimit(v: Variant): (r: nat)
    ensures r == if v == Y2014 then 100000 else 500000
  {
    if v == Y2014 then 100000 else 500000
  }

  const WinsLimit: nat := 100000
  const LoopsLimit: nat := 1000000

  /** The number of zero results at the end of `rs`: the iterations since
      the last one whose candidate was not equally good. */
  function Wins(rs: seq<int>): nat
  {
    if rs == [] then 0
    else if rs[|rs| - 1] == 0 then Wins(rs[..|rs| - 1]) + 1
    else 0
  }

  /** Which schedule is current after the results `rs`: 0 for the initial
      one, `k + 1` for the candidate of iteration `k`. */
  function Current(rs: seq<int>): (r: nat)
    ensures r <= |rs|
  {
    if rs == [] then 0
    else if rs[|rs| - 1] > 0 then |rs|
    else Current(rs[..|rs| - 1])
  }

  /** The current schedule is the last candidate that ranked better than its
      predecessor, and no later candidate did. */
  lemma {:induction false} CurrentIsLastAccepted(rs: seq<int>)
    ensures Current(rs) > 0 ==> rs[Current(rs) - 1] > 0
    ensures forall k | Current(rs) <= k < |rs| :: rs[k] <= 0
  {
    if rs != [] && rs[|rs| - 1] <= 0 {
      CurrentIsLastAccepted(rs[..|rs| - 1]);
    }
  }

  /** `wins` counts the trailing zero results: all of them are zero and the
      one before them, if any, is not. */
  lemma {:induction false} WinsAreTrailingTies(rs: seq<int>)
    ensures Wins(rs) <= |rs|
    ensures forall k | |rs| - Wins(rs) <= k < |rs| :: rs[k] == 0
    ensures Wins(rs) < |rs| ==> rs[|rs| - Wins(rs) - 1] != 0
  {
    if rs != [] && rs[|rs| - 1] == 0 {
      WinsAreTrailingTies(rs[..|rs| - 1]);
    }
  }

  lemma Snoc(rs: seq<int>, n: nat)
    requires n < |rs|
    ensures Wins(rs[..n + 1]) == if rs[n] == 0 then Wins(rs[..n]) + 1 else 0
    ensures Current(rs[..n + 1]) == if rs[n] > 0 then n + 1 else Current(rs[..n])
  {
    assert rs[..n + 1][..n] == rs[..n];
  }

  /** The loop of `main`, with its short-circuit condition
      `streak++ < limit && wins < 100000 && loops++ < 1000000 && !stopnow`.
      `n` iterations ran on the results `rs[..n]`; `moves` lists how each
      built its candidate; `current` is the schedule kept at the end. */
  method Run(v: Variant, rs: seq<int>) returns (n: nat, streak: int, wins: int, loops: int, current: nat, moves: seq<Move>)
    ensures n <= |rs| && n <= LoopsLimit
    ensures wins == Wins(rs[..n]) && current == Current(rs[..n])
    ensures |moves| == n
    ensures forall k | 0 <= k < n :: moves[k] == MoveFor(v, 1 + k - Current(rs[..k]) + 1)
    ensures n < |rs| ==> streak - 1 >= StreakLimit(v) || wins >= WinsLimit || loops - 1 >= LoopsLimit
  {
    streak, wins, loops := 1, 0, 0;
    current := 0;
    moves := [];
    n := 0;
    while true
      invariant n <= |rs| && n <= LoopsLimit && loops == n
      invariant wins == Wins(rs[..n]) && current == Current(rs[..n])
      invariant streak == 1 + n - Current(rs[..n])
      invariant |moves| == n
      invariant forall k | 0 <= k < n :: moves[k] == MoveFor(v, 1 + k - Current(rs[..k]) + 1)
      decreases LoopsLimit - loops
    {
      var s := streak;
      streak := streak + 1;
      if !(s < StreakLimit(v)) {
        break;
      }
      if !(wins < WinsLimit) {
        break;
      }
      var l := loops;
      loops := loops + 1;
      if !(l < LoopsLimit) {
        break;
      }
      if n == |rs| {
        break;
      }
      moves := moves + [MoveFor(v, streak)];
      var res := rs[n];
      Snoc(rs, n);
      if res < 0 {
        wins := 0;
      } else if res == 0 {
        wins := wins + 1;
      } else {
        wins := 0;
        streak := 1;
        current := n + 1;
      }
      n := n + 1;
    }
  }

  /** After a candidate is accepted, HT15 and VT15 build a fresh schedule in
      the next iteration, since `streak` restarts at 1 and is 2 when the
      switch reads it. */
  lemma FreshAfterAccept(v: Variant, rs: seq<int>, k: nat)
    requires v != Y2014 && 0 < k <= |rs| && rs[k - 1] > 0
    ensures MoveFor(v, 1 + k - Current(rs[..k]) + 1) == Fresh
  {
    Snoc(rs, k - 1);
  }
}
