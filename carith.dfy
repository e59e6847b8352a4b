/** C integer arithmetic the program relies on. */
module CArith {

  function Abs(a: int): (r: nat)
    ensures r == a || r == -a
  {
    if a < 0 then -a else a
  }

  /** The quotient of natural numbers, by repeated subtraction. */
  function NatDiv(a: nat, b: nat): (q: nat)
    requires b > 0
    ensures q <= a
    decreases a
  {
    if a < b then 0 else 1 + NatDiv(a - b, b)
  }

  /** `NatDiv` is the quotient of division with remainder. */
  lemma {:induction false} NatDivBounds(a: nat, b: nat)
    requires b > 0
    ensures NatDiv(a, b) * b <= a < (NatDiv(a, b) + 1) * b
    decreases a
  {
    if a >= b {
      NatDivBounds(a - b, b);
      var q := NatDiv(a - b, b);
      assert (q + 1) * b == q * b + b;
      assert (q + 2) * b == (q + 1) * b + b;
    }
  }

  /** Multiplying by a non-negative factor keeps the order. */
  lemma MulMonotone(x: int, y: int, b: int)
    requires x <= y && b >= 0
    ensures x * b <= y * b
  {
    assert y * b - x * b == (y - x) * b;
  }

  /** Dafny's `/` on natural numbers is also a quotient with remainder. */
  lemma DivBounds(a: nat, b: nat)
    requires b > 0
    ensures (a / b) * b <= a < (a / b + 1) * b
  {
    var e := a / b;
    assert a == e * b + a % b && 0 <= a % b < b;
    assert (e + 1) * b == e * b + b;
  }

  /** The quotient with remainder is unique. */
  lemma QuotientUnique(q: int, e: int, a: int, b: int)
    requires b > 0
    requires q * b <= a < (q + 1) * b && e * b <= a < (e + 1) * b
    ensures q == e
  {
    if q < e {
      MulMonotone(q + 1, e, b);
      assert false;
    } else if e < q {
      MulMonotone(e + 1, q, b);
      assert false;
    }
  }

  /** ... and therefore agrees with Dafny's `/` on natural numbers. */
  lemma NatDivIsDiv(a: nat, b: nat)
    requires b > 0
    ensures NatDiv(a, b) == a / b
  {
    NatDivBounds(a, b);
    DivBounds(a, b);
    QuotientUnique(NatDiv(a, b), a / b, a, b);
  }

  /** C's `/` on `int`: the quotient truncated toward zero, where Dafny's
      `/` is Euclidean. */
  function CDiv(a: int, b: int): (r: int)
    requires b != 0
    ensures a == 0 ==> r == 0
    ensures (a >= 0) == (b > 0) ==> r >= 0
    ensures (a >= 0) != (b > 0) ==> r <= 0
    ensures Abs(r) <= Abs(a)
  {
    var q: int := NatDiv(Abs(a), Abs(b));
    if (a >= 0) == (b > 0) then q else -q
  }

  /** `CDiv` truncates toward zero: its magnitude is the quotient of the
      magnitudes, and its sign is the product of the operands' signs. */
  lemma CDivTruncates(a: int, b: int)
    requires b != 0
    ensures a >= 0 && b > 0 ==> CDiv(a, b) == a / b
    ensures a < 0 && b > 0 ==> CDiv(a, b) == -((-a) / b)
    ensures Abs(CDiv(a, b)) * Abs(b) <= Abs(a) < (Abs(CDiv(a, b)) + 1) * Abs(b)
  {
    NatDivIsDiv(Abs(a), Abs(b));
    NatDivBounds(Abs(a), Abs(b));
  }

  /** C's `%` on `int` for a positive divisor: the remainder takes the
      sign of the dividend, by repeated subtraction of the divisor from the
      magnitude. */
  function CRem(a: int, b: int): (r: int)
    requires b > 0
    ensures a >= 0 ==> 0 <= r < b
    ensures a < 0 ==> -b < r <= 0
    ensures 0 <= a < b ==> r == a
    ensures b <= a < 2 * b ==> r == a - b
    decreases if a < 0 then 1 - a else a
  {
    if a < 0 then -CRem(-a, b)
    else if a < b then a
    else CRem(a - b, b)
  }

  /** On natural numbers `CRem` is the remainder of `NatDiv`. */
  lemma {:induction false} CRemNat(a: nat, b: nat)
    requires b > 0
    ensures CRem(a, b) == a - NatDiv(a, b) * b
    decreases a
  {
    if a >= b {
      CRemNat(a - b, b);
      var q := NatDiv(a - b, b);
      assert (1 + q) * b == b + q * b;
    }
  }

  /** `CRem` is the remainder of the truncating `CDiv`, as C's `%` is of
      C's `/`. */
  lemma CRemIsRemainder(a: int, b: int)
    requires b > 0
    ensures CRem(a, b) == a - CDiv(a, b) * b
  {
    var q := NatDiv(Abs(a), b);
    CRemNat(Abs(a), b);
    if a < 0 {
      assert CRem(a, b) == -CRem(-a, b);
      MulNegate(q, b);
    }
  }

  lemma MulNegate(q: int, b: int)
    ensures (-q) * b == -(q * b)
  {
  }

  /** Adding the divisor to a non-negative dividend leaves the remainder. */
  lemma CRemShift(a: int, b: int)
    requires a >= 0 && b > 0
    ensures CRem(a + b, b) == CRem(a, b)
  {
    assert a + b >= b;
  }

  /** Adding a multiple of `b` leaves the remainder unchanged. */
  lemma {:induction false} CRemAddMultiple(a: int, c: int, b: int)
    requires a >= 0 && c >= 0 && b > 0 && CRem(a, b) == 0
    ensures CRem(a + c, b) == CRem(c, b)
    decreases a
  {
    if a >= b {
      CRemShift(a - b, b);
      CRemAddMultiple(a - b, c, b);
      CRemShift(a - b + c, b);
    }
  }
}
