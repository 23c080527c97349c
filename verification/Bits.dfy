/** 64-bit machine words as integers, with C's `&`, `|` and `>>` defined bit by bit.

    Words are integers rather than bit-vectors because the kernel mixes them freely with page
    counts and addresses.  The lemmas give the arithmetic meaning of the masks the kernel uses.
 */
module Bits {
  const U64: nat := 0x1_0000_0000_0000_0000

  /** Arithmetic on uint64_t wraps around. */
  function Wrap(x: int): nat {
    x % 0x1_0000_0000_0000_0000
  }

  /** C's `a & b` */
  function And(a: nat, b: nat): nat
    decreases b, a
  {
    if b == 0 then 0 else 2 * And(a / 2, b / 2) + if a % 2 == 1 && b % 2 == 1 then 1 else 0
  }

  /** C's `a | b` */
  function Or(a: nat, b: nat): nat
    decreases b, a
  {
    if b == 0 then a else 2 * Or(a / 2, b / 2) + if a % 2 == 1 || b % 2 == 1 then 1 else 0
  }

  /** C's `a >> k` */
  function Shr(a: nat, k: nat): nat
    decreases k, a
  {
    if k == 0 then a else Shr(a / 2, k - 1)
  }

  /** The k low bits of a */
  function Low(a: nat, k: nat): nat
    decreases k, a
  {
    if k == 0 then 0 else 2 * Low(a / 2, k - 1) + a % 2
  }

  /** k one-bits */
  function Ones(k: nat): nat {
    if k == 0 then 0 else 2 * Ones(k - 1) + 1
  }

  predicate Bit(a: nat, k: nat) {
    Shr(a, k) % 2 == 1
  }

  /** `&` and `|` are bitwise, and neither carries across a shift. */
  lemma {:induction false} AndShr(a: nat, b: nat, k: nat)
    ensures Shr(And(a, b), k) == And(Shr(a, k), Shr(b, k))
    ensures Bit(And(a, b), k) == (Bit(a, k) && Bit(b, k))
    decreases k
  {
    if k > 0 {
      AndShr(a / 2, b / 2, k - 1);
    }
  }

  lemma {:induction false} OrShr(a: nat, b: nat, k: nat)
    ensures Shr(Or(a, b), k) == Or(Shr(a, k), Shr(b, k))
    ensures Bit(Or(a, b), k) == (Bit(a, k) || Bit(b, k))
    decreases k
  {
    if k > 0 {
      OrShr(a / 2, b / 2, k - 1);
    }
  }

  lemma {:induction false} AndOnes(a: nat, k: nat)
    ensures And(a, Ones(k)) == Low(a, k)
  {
    if k > 0 {
      AndOnes(a / 2, k - 1);
    }
  }

  /** Or-ing a word whose k low bits are clear with a word of at most k bits adds them. */
  lemma {:induction false} OrDisjoint(a: nat, b: nat, k: nat)
    requires Low(a, k) == 0 && Shr(b, k) == 0
    ensures Or(a, b) == a + b
    decreases k
  {
    if k == 0 {
    } else if b > 0 {
      OrDisjoint(a / 2, b / 2, k - 1);
    }
  }

  /** C's `a << k`, before truncation */
  function Shl(a: nat, k: nat): nat
    decreases k, a
  {
    if k == 0 then a else 2 * Shl(a, k - 1)
  }

  /** A word is its high part shifted back up, plus its low part. */
  lemma {:induction false} SplitAt(a: nat, k: nat)
    ensures a == Shl(Shr(a, k), k) + Low(a, k) && Low(a, k) <= Ones(k)
  {
    if k > 0 {
      SplitAt(a / 2, k - 1);
    }
  }

  lemma {:induction false} ShlMul(a: nat, k: nat)
    ensures Shl(a, k) == a * Shl(1, k)
  {
    if k > 0 {
      ShlMul(a, k - 1);
    }
  }

  lemma Shr12(a: nat)
    ensures Shr(a, 12) == a / 4096 && Low(a, 12) == a % 4096
  {
    SplitAt(a, 12);
    ShlMul(Shr(a, 12), 12);
    assert Ones(12) == 4095 && Shl(1, 12) == 4096;
  }

  lemma Shr9(a: nat)
    ensures Shr(a, 9) == a / 512 && Low(a, 9) == a % 512 < 512
  {
    SplitAt(a, 9);
    ShlMul(Shr(a, 9), 9);
    assert Ones(9) == 511 && Shl(1, 9) == 512;
  }

  lemma {:induction false} ShrShr(a: nat, j: nat, k: nat)
    ensures Shr(Shr(a, j), k) == Shr(a, j + k)
    decreases j
  {
    if j > 0 {
      ShrShr(a / 2, j - 1, k);
    }
  }

  lemma {:induction false} LowShr(a: nat, n: nat, k: nat, m: nat)
    requires k + m <= n
    ensures Low(Shr(Low(a, n), k), m) == Low(Shr(a, k), m)
    decreases n
  {
    if k > 0 {
      LowShr(a / 2, n - 1, k - 1, m);
    } else if m > 0 {
      LowShr(a / 2, n - 1, 0, m - 1);
    }
  }

  lemma {:induction false} ShrLow(a: nat, k: nat)
    ensures Shr(Low(a, k), k) == 0
  {
    if k > 0 {
      ShrLow(a / 2, k - 1);
    }
  }

  /** A mask of 40 one-bits above 12 clear bits keeps the page frame number of an entry. */
  lemma MaskedAddress(a: nat, m: nat)
    requires m / 4096 == Ones(40) && m % 4096 == 0
    ensures And(a, m) == 4096 * Low(a / 4096, 40)
  {
    AndShr(a, m, 12);
    Shr12(a);
    Shr12(m);
    AndOnes(a / 4096, 40);
    LowAnd(a, m, 12);
    Shr12(And(a, m));
  }

  lemma {:induction false} LowAnd(a: nat, b: nat, k: nat)
    requires Low(b, k) == 0
    ensures Low(And(a, b), k) == 0
    decreases k
  {
    if k > 0 {
      LowAnd(a / 2, b / 2, k - 1);
    }
  }

  lemma {:induction false} LowMod(a: nat, k: nat, p: nat)
    requires p == Shl(1, k)
    ensures Ones(k) == p - 1 && p > 0 && Low(a, k) == a % p
  {
    OnesShl(k);
    SplitAt(a, k);
    ShlMul(Shr(a, k), k);
    DivUnique(a, p, Shr(a, k), Low(a, k));
  }

  lemma {:induction false} OnesShl(k: nat)
    ensures Ones(k) + 1 == Shl(1, k)
  {
    if k > 0 {
      OnesShl(k - 1);
    }
  }

  lemma DivMod(a: nat, d: nat)
    requires d > 0
    ensures a == a / d * d + a % d
  {
  }

  lemma Multiple(x: int, d: nat)
    ensures x >= 1 ==> x * d >= d
    ensures x <= -1 ==> x * d + d <= 0
  {
  }

  lemma DivUnique(a: nat, d: nat, q: nat, r: nat)
    requires d > 0 && a == q * d + r && r < d
    ensures a / d == q && a % d == r
  {
    DivMod(a, d);
    Multiple(a / d - q, d);
    assert (a / d - q) * d == r - a % d;
  }

  lemma Shl40()
    ensures Shl(1, 40) == 0x100_0000_0000
  {
    assert Shl(1, 10) == 0x400;
    assert Shl(1, 20) == 0x10_0000;
    assert Shl(1, 30) == 0x4000_0000;
  }

  /** The kernel's entry mask keeps the 40 bits above the page offset. */
  lemma AddressMask(a: nat)
    ensures And(a, 0x000F_FFFF_FFFF_F000) == 4096 * Low(Shr(a, 12), 40)
  {
    Shl40();
    OnesShl(40);
    Shr12(a);
    MaskedAddress(a, 0x000F_FFFF_FFFF_F000);
  }

  /** The kernel's index mask keeps 9 bits. */
  lemma IndexMask(a: nat)
    ensures And(a, 0x1FF) == Low(a, 9) < 512
  {
    assert Ones(9) == 0x1FF;
    AndOnes(a, 9);
    SplitAt(a, 9);
  }

  lemma LowSmall(a: nat, k: nat)
    requires a < Shl(1, k)
    ensures Low(a, k) == a
  {
    LowMod(a, k, Shl(1, k));
  }

  // ---------- single bits of a byte ----------

  lemma {:induction false} OneBit(j: nat, k: nat)
    ensures Bit(Shl(1, j), k) == (j == k)
    decreases k
  {
    if k == 0 {
    } else if j == 0 {
      ShrZero(k - 1);
    } else {
      OneBit(j - 1, k - 1);
    }
  }

  lemma {:induction false} ShrZero(k: nat)
    ensures Shr(0, k) == 0
  {
    if k > 0 {
      ShrZero(k - 1);
    }
  }

  /** C's `~(1 << j)` cut down to n bits */
  function Not(j: nat, n: nat): nat {
    Ones(n) - if j < n then ShlBelow(j, n); Shl(1, j) else 0
  }

  lemma {:induction false} ShlBelow(j: nat, n: nat)
    requires j < n
    ensures Shl(1, j) <= Ones(n)
  {
    if j > 0 {
      ShlBelow(j - 1, n - 1);
    }
  }

  lemma {:induction false} NotBit(j: nat, n: nat, k: nat)
    requires j < n && k < n
    ensures Bit(Not(j, n), k) == (j != k)
    decreases k
  {
    if k == 0 {
    } else if j == 0 {
      assert Not(0, n) / 2 == Ones(n - 1);
      OnesBit(n - 1, k - 1);
    } else {
      assert Not(j, n) / 2 == Not(j - 1, n - 1);
      NotBit(j - 1, n - 1, k - 1);
    }
  }

  lemma {:induction false} OnesBit(n: nat, k: nat)
    requires k < n
    ensures Bit(Ones(n), k)
    decreases k
  {
    if k > 0 {
      assert Ones(n) / 2 == Ones(n - 1);
      OnesBit(n - 1, k - 1);
    }
  }

  /** Setting or clearing bit j of a byte changes bit j and no other; testing it tests it. */
  lemma SetClearBit(b: nat, j: nat, k: nat)
    requires j < 8 && k < 8
    ensures Bit(Or(b, Shl(1, j)), k) == (k == j || Bit(b, k))
    ensures Bit(And(b, Not(j, 8)), k) == (k != j && Bit(b, k))
  {
    OrShr(b, Shl(1, j), k);
    AndShr(b, Not(j, 8), k);
    OneBit(j, k);
    NotBit(j, 8, k);
  }

  lemma {:induction false} TestBit(b: nat, j: nat)
    ensures And(b, Shl(1, j)) == if Bit(b, j) then Shl(1, j) else 0
    ensures And(b, Shl(1, j)) != 0 <==> Bit(b, j)
  {
    if j == 0 {
    } else {
      TestBit(b / 2, j - 1);
    }
  }

  lemma {:induction false} AndOrBound(a: nat, b: nat, n: nat)
    requires a <= Ones(n) && b <= Ones(n)
    ensures And(a, b) <= Ones(n) && Or(a, b) <= Ones(n)
  {
    if n > 0 {
      AndOrBound(a / 2, b / 2, n - 1);
    }
  }

  /** A byte is 0xFF exactly when its 8 bits are set. */
  lemma {:induction false} AllOnes(b: nat, n: nat)
    requires b <= Ones(n)
    ensures b == Ones(n) <==> forall k: nat | k < n :: Bit(b, k)
  {
    if n > 0 {
      AllOnes(b / 2, n - 1);
      assert forall k: nat | 0 < k < n :: Bit(b, k) == Bit(b / 2, k - 1);
      if forall k: nat | k < n :: Bit(b, k) {
        forall k: nat | k < n - 1
          ensures Bit(b / 2, k)
        {
          assert Bit(b, k + 1);
        }
        assert Bit(b, 0);
      } else if b == Ones(n) {
        forall k: nat | k < n
          ensures Bit(b, k)
        {
          OnesBit(n, k);
        }
      }
    }
  }
}
