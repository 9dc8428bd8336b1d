/** What the constants of SHA-256 are: the first digits of roots of the first primes. */
module FipsConstants {
  import opened Numbers
  import opened Fips180

  ghost predicate IsPrime(n: nat) {
    n > 1 && forall d | 2 <= d < n :: !Divides(d, n)
  }

  predicate Divides(d: nat, n: nat)
    requires d > 0
  {
    n % d == 0
  }

  /** Trial division, which is enough below 19 * 19. */
  predicate PassesTrials(n: nat) {
    && (n == 2 || !Divides(2, n)) && (n == 3 || !Divides(3, n)) && (n == 5 || !Divides(5, n))
      && (n == 7 || !Divides(7, n))
    && (n == 11 || !Divides(11, n)) && (n == 13 || !Divides(13, n)) && (n == 17 || !Divides(17, n))
  }

  lemma FactorOfFactor(n: nat, m: nat, p: nat)
    requires p > 0 && m > 0 && Divides(p, m) && Divides(m, n)
    ensures Divides(p, n)
  {
    var c, q := m / p, n / m;
    assert n == (q * c) * p;
    QuotientIs(n, q * c, 0, p);
  }

  lemma SmallFactor(n: nat, m: nat)
    requires 2 <= m <= 18 && m < n && Divides(m, n)
    ensures !PassesTrials(n)
  {
    if m % 2 == 0 {
      FactorOfFactor(n, m, 2);
    } else if m % 3 == 0 {
      FactorOfFactor(n, m, 3);
    }
  }

  lemma SmallerFactor(n: nat, d: nat) returns (m: nat)
    requires n < 361 && 2 <= d < n && Divides(d, n)
    ensures 2 <= m <= 18 && m < n && Divides(m, n)
  {
    var e := n / d;
    assert n == d * e;
    QuotientIs(n, d, 0, e);
    if d <= 18 {
      m := d;
    } else {
      NotBothLarge(d, e);
      m := e;
    }
  }

  lemma NotBothLarge(d: nat, e: nat)
    requires d >= 19 && d * e < 361
    ensures e <= 18
  {
    if e >= 19 {
      ProductFits(18, e, d - 1, d);
    }
  }

  lemma LargerThanItself(d: nat, n: nat)
    requires 2 <= d && 2 <= n && IsPrime(n)
    ensures n == d || !Divides(d, n)
  {
    if d > n {
      QuotientIs(n, 0, n, d);
    }
  }

  lemma PrimesPassTrials(n: nat)
    requires 2 <= n < 361
    ensures IsPrime(n) <==> PassesTrials(n)
  {
    if d :| 2 <= d < n && Divides(d, n) {
      var m := SmallerFactor(n, d);
      SmallFactor(n, m);
    }
    if IsPrime(n) {
      forall d | d in {2, 3, 5, 7, 11, 13, 17}
        ensures n == d || !Divides(d, n)
      {
        LargerThanItself(d, n);
      }
    }
  }

  function Cube(x: nat): (y: nat) {
    x * x * x
  }

  /** The largest c with c^3 <= p. */
  function CubeRoot(p: nat): (c: nat)
    requires 1 <= p < 343
    ensures Cube(c) <= p < Cube(c + 1)
  {
    if p < 8 then 1 else if p < 27 then 2 else if p < 64 then 3 else if p < 125 then 4 else if p < 216 then 5 else 6
  }

  /** k has the first 32 bits of the fractional part of the cube root of p. */
  ghost predicate IsCubeRootPart(k: U32, p: nat) {
    1 <= p < 343 &&
    var r := CubeRoot(p) * 0x1_0000_0000 + k;
    Cube(r) <= p * 0x1_0000_0000_0000_0000_0000_0000 < Cube(r + 1)
  }

  /** k has the first 32 bits of the fractional part of the square root of p. */
  ghost predicate IsSquareRootPart(k: U32, p: nat) {
    1 <= p < 25 &&
    var c := if p < 4 then 1 else if p < 9 then 2 else if p < 16 then 3 else 4;
    var r := c * 0x1_0000_0000 + k;
    r * r <= p * 0x1_0000_0000_0000_0000 < (r + 1) * (r + 1)
  }

  // The first 64 primes, 16 at a time.

  function Primes00(): (ps: seq<nat>)
    ensures |ps| == 16
  {
    [2, 3, 5, 7, 11, 13, 17, 19, 23, 29, 31, 37, 41, 43, 47, 53]
  }

  function Primes16(): (ps: seq<nat>)
    ensures |ps| == 16
  {
    [59, 61, 67, 71, 73, 79, 83, 89, 97, 101, 103, 107, 109, 113, 127, 131]
  }

  function Primes32(): (ps: seq<nat>)
    ensures |ps| == 16
  {
    [137, 139, 149, 151, 157, 163, 167, 173, 179, 181, 191, 193, 197, 199, 211, 223]
  }

  function Primes48(): (ps: seq<nat>)
    ensures |ps| == 16
  {
    [227, 229, 233, 239, 241, 251, 257, 263, 269, 271, 277, 281, 283, 293, 307, 311]
  }

  function Primes(): (ps: seq<nat>)
    ensures |ps| == 64
  {
    Primes00() + Primes16() + Primes32() + Primes48()
  }

  ghost predicate Listed(n: nat) {
    n in (if n < 59 then Primes00() else if n < 137 then Primes16() else if n < 227 then Primes32() else Primes48())
  }

  lemma Primes2To24(n: nat)
    requires 2 <= n < 24
    ensures PassesTrials(n) <==> n in [2, 3, 5, 7, 11, 13, 17, 19, 23]
  {
    if n % 2 == 0 {
    } else if n % 3 == 0 {
    }
  }

  lemma Primes24To48(n: nat)
    requires 24 <= n < 48
    ensures PassesTrials(n) <==> n in [29, 31, 37, 41, 43, 47]
  {
    if n % 2 == 0 {
    } else if n % 3 == 0 {
    }
  }

  lemma Primes48To72(n: nat)
    requires 48 <= n < 72
    ensures PassesTrials(n) <==> n in [53, 59, 61, 67, 71]
  {
    if n % 2 == 0 {
    } else if n % 3 == 0 {
    }
  }

  lemma Primes72To96(n: nat)
    requires 72 <= n < 96
    ensures PassesTrials(n) <==> n in [73, 79, 83, 89]
  {
    if n % 2 == 0 {
    } else if n % 3 == 0 {
    }
  }

  lemma Primes96To120(n: nat)
    requires 96 <= n < 120
    ensures PassesTrials(n) <==> n in [97, 101, 103, 107, 109, 113]
  {
    if n % 2 == 0 {
    } else if n % 3 == 0 {
    }
  }

  lemma Primes120To144(n: nat)
    requires 120 <= n < 144
    ensures PassesTrials(n) <==> n in [127, 131, 137, 139]
  {
    if n % 2 == 0 {
    } else if n % 3 == 0 {
    }
  }

  lemma Primes144To168(n: nat)
    requires 144 <= n < 168
    ensures PassesTrials(n) <==> n in [149, 151, 157, 163, 167]
  {
    if n % 2 == 0 {
    } else if n % 3 == 0 {
    }
  }

  lemma Primes168To192(n: nat)
    requires 168 <= n < 192
    ensures PassesTrials(n) <==> n in [173, 179, 181, 191]
  {
    if n % 2 == 0 {
    } else if n % 3 == 0 {
    }
  }

  lemma Primes192To216(n: nat)
    requires 192 <= n < 216
    ensures PassesTrials(n) <==> n in [193, 197, 199, 211]
  {
    if n % 2 == 0 {
    } else if n % 3 == 0 {
    }
  }

  lemma Primes216To240(n: nat)
    requires 216 <= n < 240
    ensures PassesTrials(n) <==> n in [223, 227, 229, 233, 239]
  {
    if n % 2 == 0 {
    } else if n % 3 == 0 {
    }
  }

  lemma Primes240To264(n: nat)
    requires 240 <= n < 264
    ensures PassesTrials(n) <==> n in [241, 251, 257, 263]
  {
    if n % 2 == 0 {
    } else if n % 3 == 0 {
    }
  }

  lemma Primes264To288(n: nat)
    requires 264 <= n < 288
    ensures PassesTrials(n) <==> n in [269, 271, 277, 281, 283]
  {
    if n % 2 == 0 {
    } else if n % 3 == 0 {
    }
  }

  lemma Primes288To312(n: nat)
    requires 288 <= n < 312
    ensures PassesTrials(n) <==> n in [293, 307, 311]
  {
    if n % 2 == 0 {
    } else if n % 3 == 0 {
    }
  }

  lemma PrimesListed(n: nat)
    requires 2 <= n < 312
    ensures IsPrime(n) <==> Listed(n)
  {
    PrimesPassTrials(n);
    if n < 24 {
      Primes2To24(n);
    } else if n < 48 {
      Primes24To48(n);
    } else if n < 72 {
      Primes48To72(n);
    } else if n < 96 {
      Primes72To96(n);
    } else if n < 120 {
      Primes96To120(n);
    } else if n < 144 {
      Primes120To144(n);
    } else if n < 168 {
      Primes144To168(n);
    } else if n < 192 {
      Primes168To192(n);
    } else if n < 216 {
      Primes192To216(n);
    } else if n < 240 {
      Primes216To240(n);
    } else if n < 264 {
      Primes240To264(n);
    } else if n < 288 {
      Primes264To288(n);
    } else {
      Primes288To312(n);
    }
  }

  lemma RowsInOrder()
    ensures forall i | 0 <= i < 15 :: Primes00()[i] < Primes00()[i + 1]
    ensures forall i | 0 <= i < 15 :: Primes16()[i] < Primes16()[i + 1]
    ensures forall i | 0 <= i < 15 :: Primes32()[i] < Primes32()[i + 1]
    ensures forall i | 0 <= i < 15 :: Primes48()[i] < Primes48()[i + 1]
  {}

  /** The list of primes: it is in order, and no prime below 312 is missing. */
  lemma PrimesAreTheFirst()
    ensures forall t | 0 <= t < 63 :: Primes()[t] < Primes()[t + 1]
    ensures forall n | 0 <= n < 312 :: IsPrime(n) <==> n in Primes()
  {
    forall t | 0 <= t < 63
      ensures Primes()[t] < Primes()[t + 1]
    {
      RowsInOrder();
      FourRows(Primes00(), Primes16(), Primes32(), Primes48(), t);
      FourRows(Primes00(), Primes16(), Primes32(), Primes48(), t + 1);
    }
    forall n | 0 <= n < 312
      ensures IsPrime(n) <==> n in Primes()
    {
      InSomeRow(n);
      if n >= 2 {
        PrimesListed(n);
      }
    }
  }

  lemma InSomeRow(n: nat)
    ensures n in Primes() <==> n in Primes00() || n in Primes16() || n in Primes32() || n in Primes48()
    ensures n in Primes() ==> Listed(n) && n >= 2
    ensures Listed(n) ==> n in Primes()
  {
    RowRanges(n);
  }

  lemma RowRanges(n: nat)
    ensures n in Primes00() ==> 2 <= n < 59
    ensures n in Primes16() ==> 59 <= n < 137
    ensures n in Primes32() ==> 137 <= n < 227
    ensures n in Primes48() ==> 227 <= n
  {}

  lemma Roots00(t: nat)
    requires t < 8
    ensures IsCubeRootPart(Constants00()[t], Primes00()[t])
  {}

  lemma Roots08(t: nat)
    requires t < 8
    ensures IsCubeRootPart(Constants00()[8 + t], Primes00()[8 + t])
  {}

  lemma Roots16(t: nat)
    requires t < 8
    ensures IsCubeRootPart(Constants16()[t], Primes16()[t])
  {}

  lemma Roots24(t: nat)
    requires t < 8
    ensures IsCubeRootPart(Constants16()[8 + t], Primes16()[8 + t])
  {}

  lemma Roots32(t: nat)
    requires t < 8
    ensures IsCubeRootPart(Constants32()[t], Primes32()[t])
  {}

  lemma Roots40(t: nat)
    requires t < 8
    ensures IsCubeRootPart(Constants32()[8 + t], Primes32()[8 + t])
  {}

  lemma Roots48(t: nat)
    requires t < 8
    ensures IsCubeRootPart(Constants48()[t], Primes48()[t])
  {}

  lemma Roots56(t: nat)
    requires t < 8
    ensures IsCubeRootPart(Constants48()[8 + t], Primes48()[8 + t])
  {}

  lemma Row00(t: nat)
    requires t < 16
    ensures IsCubeRootPart(Constants00()[t], Primes00()[t])
  {
    if t < 8 {
      Roots00(t);
    } else {
      Roots08(t - 8);
    }
  }

  lemma Row16(t: nat)
    requires t < 16
    ensures IsCubeRootPart(Constants16()[t], Primes16()[t])
  {
    if t < 8 {
      Roots16(t);
    } else {
      Roots24(t - 8);
    }
  }

  lemma Row32(t: nat)
    requires t < 16
    ensures IsCubeRootPart(Constants32()[t], Primes32()[t])
  {
    if t < 8 {
      Roots32(t);
    } else {
      Roots40(t - 8);
    }
  }

  lemma Row48(t: nat)
    requires t < 16
    ensures IsCubeRootPart(Constants48()[t], Primes48()[t])
  {
    if t < 8 {
      Roots48(t);
    } else {
      Roots56(t - 8);
    }
  }

  lemma FourRows(a: seq<nat>, b: seq<nat>, c: seq<nat>, d: seq<nat>, t: nat)
    requires |a| == |b| == |c| == |d| == 16 && t < 64
    ensures (a + b + c + d)[t]
         == if t < 16 then a[t] else if t < 32 then b[t - 16] else if t < 48 then c[t - 32] else d[t - 48]
  {}

  /** Section 4.2.2 of FIPS 180-4: the constants come from the cube roots of the first 64 primes. */
  lemma ConstantsAreRoots(t: nat)
    requires t < 64
    ensures IsCubeRootPart(Constants()[t], Primes()[t])
  {
    FourRows(Constants00(), Constants16(), Constants32(), Constants48(), t);
    FourRows(Primes00(), Primes16(), Primes32(), Primes48(), t);
    if t < 16 {
      Row00(t);
    } else if t < 32 {
      Row16(t - 16);
    } else if t < 48 {
      Row32(t - 32);
    } else {
      Row48(t - 48);
    }
  }

  /** Section 5.3.3 of FIPS 180-4: the initial hash value comes from the square roots of the first eight primes. */
  lemma InitialHashIsRoots()
    ensures var H := InitialHash();
      && IsSquareRootPart(H.a, 2) && IsSquareRootPart(H.b, 3) && IsSquareRootPart(H.c, 5) && IsSquareRootPart(H.d, 7)
      && IsSquareRootPart(H.e, 11) && IsSquareRootPart(H.f, 13) && IsSquareRootPart(H.g, 17)
        && IsSquareRootPart(H.h, 19)
  {}
}
