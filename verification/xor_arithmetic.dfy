/** The operator ^ on unsigned 32-bit numbers. */
module XorArithmetic {
  import opened Words
  import opened Numbers
  import opened Linear

  /** a ^ b */
  function XorU32(a: nat, b: nat): (c: nat)
    ensures c < Pow2(32)
  {
    NumberOf(Xor(BitsOf(a, 32), BitsOf(b, 32)), 32)
  }

  lemma {:induction false} WiderBits(a: nat, k: nat, n: nat)
    requires a < Pow2(k) && k <= n
    ensures BitsOf(a, n) == BitsOf(a, k)
  {
    if k < n {
      Pow2Monotone(k, n - 1);
      WiderBits(a, k, n - 1);
    }
  }

  /** The bits of a number whose high part is A and whose low q bits are R. */
  ghost function Cat(A: set<nat>, q: nat, R: set<nat>): (x: set<nat>)
    requires FitsIn(R, q)
    ensures forall i: nat :: i in x <==> (i < q && i in R) || (i >= q && i - q in A)
  {
    var high := set i | i in A :: i + q;
    assert forall i: nat :: i in high <==> i >= q && i - q in A by {
      forall i: nat
        ensures i in high <==> i >= q && i - q in A
      {
        if i >= q && i - q in A {
          assert i == (i - q) + q;
        }
      }
    }
    high + R
  }

  lemma {:induction false} NumberOfCat(A: set<nat>, k: nat, q: nat, R: set<nat>)
    requires FitsIn(R, q)
    ensures NumberOf(Cat(A, q, R), k + q) == NumberOf(A, k) * Pow2(q) + NumberOf(R, q)
  {
    if k == 0 {
      NumberOfLow(Cat(A, q, R), R, q);
    } else {
      NumberOfCat(A, k - 1, q, R);
      Pow2Sum(k - 1, q);
      assert k - 1 + q in Cat(A, q, R) <==> k - 1 in A;
      var n := NumberOf(A, k - 1);
      assert (n + Pow2(k - 1)) * Pow2(q) == n * Pow2(q) + Pow2(k - 1) * Pow2(q);
    }
  }

  lemma BitsOfCat(a: nat, k: nat, q: nat, r: nat)
    requires a < Pow2(k) && r < Pow2(q)
    ensures BitsOf(a * Pow2(q) + r, k + q) == Cat(BitsOf(a, k), q, BitsOf(r, q))
  {
    var x := Cat(BitsOf(a, k), q, BitsOf(r, q));
    NumberOfCat(BitsOf(a, k), k, q, BitsOf(r, q));
    NumberOfBits(a, k);
    NumberOfBits(r, q);
    BitsOfNumber(x, k + q);
  }

  lemma XorCat(A: set<nat>, R: set<nat>, B: set<nat>, S: set<nat>, q: nat)
    requires FitsIn(R, q) && FitsIn(S, q)
    ensures FitsIn(Xor(R, S), q) && Xor(Cat(A, q, R), Cat(B, q, S)) == Cat(Xor(A, B), q, Xor(R, S))
  {
    forall i: nat
      ensures i in Xor(Cat(A, q, R), Cat(B, q, S)) <==> i in Cat(Xor(A, B), q, Xor(R, S))
    {
    }
  }

  lemma CatFits(a: nat, k: nat, q: nat, r: nat)
    requires a < Pow2(k) && r < Pow2(q)
    ensures a * Pow2(q) + r < Pow2(k + q)
  {
    Pow2Sum(k, q);
    ProductFits(a, Pow2(k), r, Pow2(q));
  }

  lemma XorOfCats(a: nat, b: nat, k: nat, r: nat, s: nat, q: nat, x: nat, y: nat)
    requires a < Pow2(k) && b < Pow2(k) && r < Pow2(q) && s < Pow2(q)
    requires x == a * Pow2(q) + r && y == b * Pow2(q) + s
    ensures NumberOf(Xor(BitsOf(x, k + q), BitsOf(y, k + q)), k + q)
         == NumberOf(Xor(BitsOf(a, k), BitsOf(b, k)), k) * Pow2(q) + NumberOf(Xor(BitsOf(r, q), BitsOf(s, q)), q)
  {
    BitsOfCat(a, k, q, r);
    BitsOfCat(b, k, q, s);
    XorCat(BitsOf(a, k), BitsOf(r, q), BitsOf(b, k), BitsOf(s, q), q);
    NumberOfCat(Xor(BitsOf(a, k), BitsOf(b, k)), k, q, Xor(BitsOf(r, q), BitsOf(s, q)));
  }

  lemma MixedRadixAt(a: nat, b: nat, k: nat, r: nat, s: nat, q: nat, x: nat, y: nat)
    requires a < Pow2(k) && b < Pow2(k) && r < Pow2(q) && s < Pow2(q) && k + q <= 32
    requires x == a * Pow2(q) + r && y == b * Pow2(q) + s && x < Pow2(k + q) && y < Pow2(k + q)
    ensures XorU32(x, y) == XorU32(a, b) * Pow2(q) + XorU32(r, s)
  {
    XorBits(a, b, k);
    XorBits(r, s, q);
    XorBits(x, y, k + q);
    XorOfCats(a, b, k, r, s, q, x, y);
  }

  /** The high parts and the low parts are added separately: XOR distributes over a mixed radix whose low part has q
      bits. */
  lemma MixedRadix(a: nat, b: nat, k: nat, r: nat, s: nat, q: nat, x: nat, y: nat)
    requires a < Pow2(k) && b < Pow2(k) && r < Pow2(q) && s < Pow2(q) && k + q <= 32
    requires x == a * Pow2(q) + r && y == b * Pow2(q) + s
    ensures XorU32(x, y) == XorU32(a, b) * Pow2(q) + XorU32(r, s)
    ensures XorU32(a, b) < Pow2(k) && XorU32(r, s) < Pow2(q)
  {
    XorBits(a, b, k);
    XorBits(r, s, q);
    CatFits(a, k, q, r);
    CatFits(b, k, q, s);
    MixedRadixAt(a, b, k, r, s, q, x, y);
  }

  lemma XorBits(a: nat, b: nat, k: nat)
    requires a < Pow2(k) && b < Pow2(k) && k <= 32
    ensures XorU32(a, b) == NumberOf(Xor(BitsOf(a, k), BitsOf(b, k)), k) < Pow2(k)
  {
    WiderBits(a, k, 32);
    WiderBits(b, k, 32);
    WiderNumber(Xor(BitsOf(a, k), BitsOf(b, k)), k, 32);
  }

  /** In terms of the numbers alone: the binary digits are compared one by one. */
  lemma XorComparesDigits(a: nat, b: nat, i: nat, x: nat, y: nat, z: nat)
    requires a < Pow2(32) && b < Pow2(32) && i < 32
    requires x == a / Pow2(i) && y == b / Pow2(i) && z == XorU32(a, b) / Pow2(i)
    ensures z % 2 == 1 <==> x % 2 != y % 2
  {
    NumberOfBits(a, 32);
    NumberOfBits(b, 32);
    NumberBit(BitsOf(a, 32), i, 32, x);
    NumberBit(BitsOf(b, 32), i, 32, y);
    NumberBit(Xor(BitsOf(a, 32), BitsOf(b, 32)), i, 32, z);
  }

  lemma {:induction false} AllOnes(k: nat)
    ensures NumberOf(Below(k), k) == Pow2(k) - 1
  {
    if k > 0 {
      AllOnes(k - 1);
      NumberOfLow(Below(k), Below(k - 1), k - 1);
    }
  }

  lemma {:induction false} OneBit(k: nat, n: nat)
    requires k < n
    ensures NumberOf({k}, n) == Pow2(k)
  {
    if n == k + 1 {
      NumberOfLow({k}, {}, k);
      NumberOfNothing(k);
    } else {
      OneBit(k, n - 1);
    }
  }

  lemma OneBitNumber(k: nat)
    ensures BitsOf(Pow2(k), k + 1) == {k}
  {
    OneBit(k, k + 1);
    BitsOfNumber({k}, k + 1);
  }

  lemma AllOnesNumber(k: nat, ones: nat)
    requires ones == Pow2(k) - 1
    ensures BitsOf(ones, k + 1) == Below(k)
  {
    AllOnes(k);
    WiderNumber(Below(k), k, k + 1);
    BitsOfNumber(Below(k), k + 1);
  }

  lemma AddTop(k: nat)
    ensures Xor({k}, Below(k)) == Below(k + 1)
  {
  }

  /** 2^k ^ (2^k - 1) has k + 1 one-bits. */
  lemma XorOfNeighbours(k: nat, p: nat)
    requires k < 32 && p == Pow2(k)
    ensures XorU32(p, p - 1) == Pow2(k + 1) - 1
  {
    OneBitNumber(k);
    AllOnesNumber(k, p - 1);
    AllOnes(k + 1);
    XorBits(p, p - 1, k + 1);
    AddTop(k);
  }
}
