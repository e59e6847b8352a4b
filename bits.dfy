/** The 32-bit `mask_t` word that every variant uses for sets of player
    indices, and its helpers `test_bit`, `set_bit`, `clear_bit`,
    `count_bits`, `or_mask` and `rand_bit`.  A word is a natural number
    below 2^32; the bitwise operators are defined digit by digit in base 2. */
module Bits {

  /** Number of bits in `mask_t` and the largest roster (`MAX_PLAYER`). */
  const WordBits: nat := 32

  function Pow2(k: nat): (r: nat)
    ensures r >= 1
  {
    if k == 0 then 1 else 2 * Pow2(k - 1)
  }

  /** A value that fits in `mask_t`. */
  predicate IsWord(m: nat)
  {
    m < Pow2(WordBits)
  }

  /** Bit `p` of `m`, i.e. `(m >> p) & 1`. */
  predicate TestBit(m: nat, p: nat)
  {
    if p == 0 then m % 2 == 1 else TestBit(m / 2, p - 1)
  }

  /** `a | b`. */
  function Or(a: nat, b: nat): nat
  {
    if a == 0 && b == 0 then 0
    else 2 * Or(a / 2, b / 2) + (if a % 2 == 1 || b % 2 == 1 then 1 else 0)
  }

  /** `a & ~b`. */
  function AndNot(a: nat, b: nat): nat
  {
    if a == 0 then 0
    else 2 * AndNot(a / 2, b / 2) + (if a % 2 == 1 && b % 2 == 0 then 1 else 0)
  }

  /** A word built as `2 * x + low` has `x` above its lowest bit `low`. */
  lemma Halves(x: nat, low: nat)
    requires low < 2
    ensures (2 * x + low) / 2 == x && (2 * x + low) % 2 == low
  {
  }

  lemma {:induction false} OrBits(a: nat, b: nat, q: nat)
    ensures TestBit(Or(a, b), q) == (TestBit(a, q) || TestBit(b, q))
  {
    if !(a == 0 && b == 0) {
      Halves(Or(a / 2, b / 2), if a % 2 == 1 || b % 2 == 1 then 1 else 0);
      if q > 0 {
        OrBits(a / 2, b / 2, q - 1);
      }
    } else if q > 0 {
      ZeroBits(q);
    }
  }

  lemma {:induction false} AndNotBits(a: nat, b: nat, q: nat)
    ensures TestBit(AndNot(a, b), q) == (TestBit(a, q) && !TestBit(b, q))
  {
    if a != 0 {
      Halves(AndNot(a / 2, b / 2), if a % 2 == 1 && b % 2 == 0 then 1 else 0);
      if q > 0 {
        AndNotBits(a / 2, b / 2, q - 1);
      }
    } else if q > 0 {
      ZeroBits(q);
    }
  }

  lemma {:induction false} ZeroBits(q: nat)
    ensures !TestBit(0, q)
  {
    if q > 0 {
      ZeroBits(q - 1);
    }
  }

  /** `1 << p`. */
  lemma {:induction false} Pow2Bits(p: nat, q: nat)
    ensures TestBit(Pow2(p), q) == (q == p)
  {
    if p > 0 && q > 0 {
      Pow2Bits(p - 1, q - 1);
    } else if p > 0 {
    } else if q > 0 {
      ZeroBits(q - 1);
    }
  }

  /** The word with bits `a | b` fits in `k` bits when both operands do. */
  lemma {:induction false} OrBound(a: nat, b: nat, k: nat)
    requires a < Pow2(k) && b < Pow2(k)
    ensures Or(a, b) < Pow2(k)
  {
    if k > 0 && !(a == 0 && b == 0) {
      OrBound(a / 2, b / 2, k - 1);
    }
  }

  lemma OrWord(a: nat, b: nat)
    ensures IsWord(a) && IsWord(b) ==> IsWord(Or(a, b))
  {
    if IsWord(a) && IsWord(b) {
      OrBound(a, b, WordBits);
    }
  }

  lemma {:induction false} AndNotBound(a: nat, b: nat)
    ensures AndNot(a, b) <= a
  {
    if a != 0 {
      AndNotBound(a / 2, b / 2);
    }
  }

  lemma {:induction false} Pow2Mono(p: nat, k: nat)
    requires p < k
    ensures Pow2(p) < Pow2(k)
  {
    if p + 1 < k {
      Pow2Mono(p, k - 1);
    }
  }

  /** `set_bit`: bit `p` becomes set and every other bit keeps its value;
      the result stays a word. */
  function SetBit(mask: nat, p: nat): (r: nat)
    requires p < WordBits
    ensures forall q: nat :: TestBit(r, q) == (q == p || TestBit(mask, q))
    ensures IsWord(mask) ==> IsWord(r)
  {
    forall q: nat ensures TestBit(Or(mask, Pow2(p)), q) == (q == p || TestBit(mask, q)) {
      OrBits(mask, Pow2(p), q);
      Pow2Bits(p, q);
    }
    Pow2Mono(p, WordBits);
    OrWord(mask, Pow2(p));
    Or(mask, Pow2(p))
  }

  /** `clear_bit`: bit `p` becomes clear and every other bit keeps its value;
      the result stays a word. */
  function ClearBit(mask: nat, p: nat): (r: nat)
    requires p < WordBits
    ensures forall q: nat :: TestBit(r, q) == (q != p && TestBit(mask, q))
    ensures r <= mask
  {
    forall q: nat ensures TestBit(AndNot(mask, Pow2(p)), q) == (q != p && TestBit(mask, q)) {
      AndNotBits(mask, Pow2(p), q);
      Pow2Bits(p, q);
    }
    AndNotBound(mask, Pow2(p));
    AndNot(mask, Pow2(p))
  }

  /** `or_mask`: the union of two masks. */
  function OrMask(a: nat, b: nat): (r: nat)
    ensures forall q: nat :: TestBit(r, q) == (TestBit(a, q) || TestBit(b, q))
    ensures IsWord(a) && IsWord(b) ==> IsWord(r)
  {
    forall q: nat ensures TestBit(Or(a, b), q) == (TestBit(a, q) || TestBit(b, q)) {
      OrBits(a, b, q);
    }
    OrWord(a, b);
    Or(a, b)
  }

  /** `mask & ~mask1`: the members of `a` that are not in `b`. */
  function Minus(a: nat, b: nat): (r: nat)
    ensures forall q: nat :: TestBit(r, q) == (TestBit(a, q) && !TestBit(b, q))
    ensures r <= a
  {
    forall q: nat ensures TestBit(AndNot(a, b), q) == (TestBit(a, q) && !TestBit(b, q)) {
      AndNotBits(a, b, q);
    }
    AndNotBound(a, b);
    AndNot(a, b)
  }

  /** A number below 2^k has no bit at index k or above. */
  lemma {:induction false} HighBitsClear(m: nat, k: nat, q: nat)
    requires m < Pow2(k) && k <= q
    ensures !TestBit(m, q)
  {
    if k == 0 {
      ZeroBits(q);
    } else {
      HighBitsClear(m / 2, k - 1, q - 1);
    }
  }

  /** A non-zero number has a set bit, below `k` when it fits in `k` bits. */
  lemma {:induction false} SomeBit(m: nat, k: nat) returns (p: nat)
    requires 0 < m < Pow2(k)
    ensures p < k && TestBit(m, p)
  {
    if m % 2 == 1 {
      p := 0;
    } else {
      var p' := SomeBit(m / 2, k - 1);
      p := p' + 1;
    }
  }

  /** Two numbers with the same bits are equal. */
  lemma {:induction false} BitsExt(a: nat, b: nat)
    requires forall q: nat :: TestBit(a, q) == TestBit(b, q)
    ensures a == b
    decreases a + b
  {
    if a != 0 || b != 0 {
      assert TestBit(a, 0) == TestBit(b, 0);
      forall q: nat ensures TestBit(a / 2, q) == TestBit(b / 2, q) {
        assert TestBit(a, q + 1) == TestBit(b, q + 1);
      }
      BitsExt(a / 2, b / 2);
    }
  }

  /** The set bits of `mask` below `k`, in ascending order. */
  function SetBitsBelow(mask: nat, k: nat): seq<nat>
  {
    if k == 0 then []
    else SetBitsBelow(mask, k - 1) + (if TestBit(mask, k - 1) then [k - 1] else [])
  }

  /** The list holds exactly the set bits below `k`. */
  lemma {:induction false} SetBitsBelowMembers(mask: nat, k: nat)
    ensures forall q: nat :: q in SetBitsBelow(mask, k) <==> q < k && TestBit(mask, q)
    ensures |SetBitsBelow(mask, k)| <= k
  {
    if k > 0 {
      SetBitsBelowMembers(mask, k - 1);
    }
  }

  lemma {:induction false} SetBitsOfZero(k: nat)
    ensures SetBitsBelow(0, k) == []
  {
    if k > 0 {
      SetBitsOfZero(k - 1);
      ZeroBits(k - 1);
    }
  }

  /** The ascending list of set bits of a word: the list `rand_bit` builds. */
  function SetBits(mask: nat): seq<nat>
  {
    SetBitsBelow(mask, WordBits)
  }

  /** A word is zero exactly when it has no set bit, and the listed indices
      are exactly its set bits. */
  lemma SetBitsSpec(mask: nat)
    requires IsWord(mask)
    ensures (mask == 0) == (|SetBits(mask)| == 0)
    ensures forall q: nat :: q in SetBits(mask) <==> q < WordBits && TestBit(mask, q)
    ensures |SetBits(mask)| <= WordBits
  {
    SetBitsBelowMembers(mask, WordBits);
    if mask != 0 {
      var p := SomeBit(mask, WordBits);
      assert p in SetBits(mask);
    } else {
      SetBitsOfZero(WordBits);
    }
  }

  /** `rand_bit`: collects the set bits of the mask into a 32-entry buffer
      and returns entry `draw % cnt`, where `draw` stands for `rand()`;
      the source asserts that some bit is set. */
  method RandBit(mask: nat, draw: nat) returns (b: nat)
    requires IsWord(mask) && mask != 0
    ensures b < WordBits && TestBit(mask, b)
    ensures |SetBits(mask)| > 0 && b == SetBits(mask)[draw % |SetBits(mask)|]
  {
    var list := new nat[WordBits];
    var cnt := 0;
    for i := 0 to WordBits
      invariant cnt <= i && list[..cnt] == SetBitsBelow(mask, i)
    {
      if TestBit(mask, i) {
        list[cnt] := i;
        cnt := cnt + 1;
      }
    }
    SetBitsSpec(mask);
    b := list[draw % cnt];
    assert b in SetBits(mask);
  }

  /** `mask >> k`. */
  function Shr(m: nat, k: nat): nat
  {
    if k == 0 then m else Shr(m, k - 1) / 2
  }

  lemma {:induction false} ShrBit(m: nat, k: nat)
    ensures TestBit(m, k) == (Shr(m, k) % 2 == 1)
    ensures forall q: nat :: TestBit(Shr(m, k), q) == TestBit(m, q + k)
  {
    if k > 0 {
      ShrBit(m, k - 1);
      forall q: nat ensures TestBit(Shr(m, k), q) == TestBit(m, q + k) {
        assert TestBit(Shr(m, k - 1), q + 1) == TestBit(m, q + 1 + (k - 1));
      }
      assert TestBit(Shr(m, k), 0) == TestBit(m, k);
    }
  }

  lemma {:induction false} SetBitsBelowStable(mask: nat, i: nat, k: nat)
    requires i <= k
    requires forall q | i <= q :: !TestBit(mask, q)
    ensures SetBitsBelow(mask, k) == SetBitsBelow(mask, i)
  {
    if k > i {
      SetBitsBelowStable(mask, i, k - 1);
    }
  }

  /** `count_bits`: the number of set bits of a word, counted by testing the
      lowest bit and shifting right until the word is zero. */
  method CountBits(mask: nat) returns (count: nat)
    requires IsWord(mask)
    ensures count == |SetBits(mask)|
  {
    var m := mask;
    count := 0;
    ghost var i: nat := 0;
    while m != 0
      invariant m == Shr(mask, i)
      invariant count == |SetBitsBelow(mask, i)|
      decreases m
    {
      ShrBit(mask, i);
      if m % 2 == 1 {
        count := count + 1;
      }
      m := m / 2;
      i := i + 1;
    }
    forall q | i <= q ensures !TestBit(mask, q) {
      ShrBit(mask, i);
      ZeroBits(q - i);
    }
    if i <= WordBits {
      SetBitsBelowStable(mask, i, WordBits);
    } else {
      forall q | WordBits <= q ensures !TestBit(mask, q) {
        HighBitsClear(mask, WordBits, q);
      }
      SetBitsBelowStable(mask, WordBits, i);
    }
  }
}
