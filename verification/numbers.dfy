/** The unsigned integer that a word stands for. */
module Numbers {
  import opened Words

  function Pow2(k: nat): (p: nat)
    ensures p > 0
  {
    if k == 0 then 1 else 2 * Pow2(k - 1)
  }

  /** The ranges of the unsigned integers of 32 and 64 bits. */
  const TWO_32: nat := 0x1_0000_0000
  const TWO_64: nat := 0x1_0000_0000_0000_0000

  lemma SixtyFourBits()
    ensures Pow2(32) == TWO_32 && Pow2(64) == TWO_64
  {
    assert Pow2(8) == 0x100;
    assert Pow2(16) == 0x1_0000;
    assert Pow2(24) == 0x100_0000;
    assert Pow2(32) == 0x1_0000_0000;
    assert Pow2(40) == 0x100_0000_0000;
    assert Pow2(48) == 0x1_0000_0000_0000;
    assert Pow2(56) == 0x100_0000_0000_0000;
  }

  /** The value of the low k bits of x, that is x & (2^k - 1). */
  function NumberOf(x: set<nat>, k: nat): (n: nat)
    ensures n < Pow2(k)
  {
    if k == 0 then 0
    else NumberOf(x, k - 1) + if k - 1 in x then Pow2(k - 1) else 0
  }

  /** The bits of the k-bit number n. */
  function BitsOf(n: nat, k: nat): (x: set<nat>)
    ensures forall i | i in x :: i < k
  {
    if k == 0 then {}
    else if n >= Pow2(k - 1) then BitsOf(n - Pow2(k - 1), k - 1) + {k - 1}
    else BitsOf(n, k - 1)
  }

  function WordOf(n: nat): (x: Word)
    requires n < TWO_64
  {
    BitsOf(n, 64)
  }

  lemma {:induction false} NumberOfNothing(k: nat)
    ensures NumberOf({}, k) == 0
  {
    if k > 0 {
      NumberOfNothing(k - 1);
    }
  }

  /** Only the low k bits matter. */
  lemma {:induction false} NumberOfLow(x: set<nat>, y: set<nat>, k: nat)
    requires forall i | 0 <= i < k :: i in x <==> i in y
    ensures NumberOf(x, k) == NumberOf(y, k)
  {
    if k > 0 {
      NumberOfLow(x, y, k - 1);
    }
  }

  lemma {:induction false} NumberOfBits(n: nat, k: nat)
    requires n < Pow2(k)
    ensures NumberOf(BitsOf(n, k), k) == n
  {
    if k > 0 {
      if n >= Pow2(k - 1) {
        NumberOfBits(n - Pow2(k - 1), k - 1);
        NumberOfLow(BitsOf(n, k), BitsOf(n - Pow2(k - 1), k - 1), k - 1);
      } else {
        NumberOfBits(n, k - 1);
        NumberOfLow(BitsOf(n, k), BitsOf(n, k - 1), k - 1);
      }
    }
  }

  lemma {:induction false} BitsOfNumber(x: set<nat>, k: nat)
    requires forall i | i in x :: i < k
    ensures BitsOf(NumberOf(x, k), k) == x
  {
    if k > 0 {
      NumberOfLow(x, x - {k - 1}, k - 1);
      BitsOfNumber(x - {k - 1}, k - 1);
    }
  }

  lemma NumberOfWord(n: nat)
    requires n < TWO_64
    ensures NumberOf(WordOf(n), 64) == n
  {
    SixtyFourBits();
    NumberOfBits(n, 64);
  }

  lemma {:induction false} ProductFits(a: nat, A: nat, r: nat, p: nat)
    requires a < A && r < p
    ensures a * p + r < A * p
  {
    if a + 1 < A {
      ProductFits(a, A - 1, r, p);
    }
    assert A * p == (A - 1) * p + p;
  }

  /** A quotient and a remainder are unique. */
  lemma QuotientUnique(i: nat, j: nat, i': nat, j': nat, d: nat)
    requires i * d + j == i' * d + j' && j < d && j' < d
    ensures i == i' && j == j'
  {
    if i < i' {
      MoreThan(i, i', d);
    } else if i' < i {
      MoreThan(i', i, d);
    }
  }

  lemma MoreThan(i: nat, i': nat, d: nat)
    requires i < i' && d > 0
    ensures i' * d >= i * d + d
  {
    ProductFits(i, i', d - 1, d);
  }

  lemma Divided(x: nat, d: nat)
    requires d > 0
    ensures x == x / d * d + x % d && x % d < d
  {
  }

  lemma {:induction false} Pow2Sum(k: nat, q: nat)
    ensures Pow2(k + q) == Pow2(k) * Pow2(q)
  {
    if k > 0 {
      Pow2Sum(k - 1, q);
      assert Pow2(k) * Pow2(q) == 2 * (Pow2(k - 1) * Pow2(q));
    }
  }

  lemma {:induction false} Pow2Monotone(k: nat, n: nat)
    requires k <= n
    ensures Pow2(k) <= Pow2(n)
  {
    if k < n {
      Pow2Monotone(k, n - 1);
    }
  }

  lemma QuotientIs(n: nat, q: nat, r: nat, d: nat)
    requires n == q * d + r && r < d
    ensures n / d == q && n % d == r
  {
    Divided(n, d);
    QuotientUnique(n / d, n % d, q, r, d);
  }

  ghost predicate FitsIn(x: set<nat>, k: nat) {
    forall i | i in x :: i < k
  }

  /** Leading zeros do not matter. */
  lemma {:induction false} WiderNumber(x: set<nat>, k: nat, n: nat)
    requires FitsIn(x, k) && k <= n
    ensures NumberOf(x, n) == NumberOf(x, k)
  {
    if k < n {
      WiderNumber(x, k, n - 1);
    }
  }

  lemma QuotientOfQuotient(x: nat, a: nat, b: nat)
    requires a > 0 && b > 0
    ensures a * b > 0 && x / a / b == x / (a * b)
  {
    var q, s, r := x / a / b, x / a % b, x % a;
    Divided(x, a);
    Divided(x / a, b);
    ProductFits(s, b, r, a);
    Regroup(q, b, s, a);
    QuotientIs(x, q, s * a + r, b * a);
  }

  lemma Regroup(q: nat, b: nat, s: nat, a: nat)
    ensures (q * b + s) * a == q * (b * a) + s * a
  {
  }

  /** A quotient counts the multiples that fit. */
  lemma BelowQuotient(k: nat, n: nat, d: nat)
    requires d > 0
    ensures k < n / d <==> (k + 1) * d <= n
  {
    Divided(n, d);
    var q := n / d;
    if k + 1 > q {
      MoreThan(q, k + 1, d);
    } else if k + 1 < q {
      MoreThan(k + 1, q, d);
    }
  }

  lemma Distribute(n: nat, p: nat, d: nat)
    ensures (n + p) * d == n * d + p * d
  {
  }

  /** The high and the low bits of a number of n = s + k bits. */
  lemma {:induction false} NumberSplit(x: set<nat>, s: nat, k: nat, n: nat)
    requires n == s + k
    ensures NumberOf(x, n) == NumberOf(Shr(x, s), k) * Pow2(s) + NumberOf(x, s)
  {
    if k > 0 {
      NumberSplit(x, s, k - 1, n - 1);
      ShrBit(x, s, k - 1);
      Pow2Sum(k - 1, s);
      Distribute(NumberOf(Shr(x, s), k - 1), Pow2(k - 1), Pow2(s));
    }
  }

  /** Shifting divides, and masking takes the rest. */
  lemma ShiftDivides(x: set<nat>, s: nat, n: nat)
    requires s <= n
    ensures NumberOf(Shr(x, s), n - s) == NumberOf(x, n) / Pow2(s) && NumberOf(x, s) == NumberOf(x, n) % Pow2(s)
  {
    NumberSplit(x, s, n - s, n);
    QuotientIs(NumberOf(x, n), NumberOf(Shr(x, s), n - s), NumberOf(x, s), Pow2(s));
  }

  lemma LowestBit(x: set<nat>, n: nat)
    requires n > 0
    ensures 0 in x <==> NumberOf(x, n) % 2 == 1
  {
    ShiftDivides(x, 1, n);
    assert NumberOf(x, 0) == 0 && Pow2(0) == 1 && Pow2(1) == 2;
    assert NumberOf(x, 1) == if 0 in x then 1 else 0;
  }

  /** The bits of a number. */
  lemma NumberBit(x: set<nat>, i: nat, n: nat, q: nat)
    requires i < n && q == NumberOf(x, n) / Pow2(i)
    ensures i in x <==> q % 2 == 1
  {
    ShiftDivides(x, i, n);
    LowestBit(Shr(x, i), n - i);
    ShrBit(x, i, 0);
  }
}
