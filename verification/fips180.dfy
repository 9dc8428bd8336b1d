/** The hash function SHA-256, as FIPS 180-4 defines it. */
module Fips180 {
  import opened Words
  import opened Numbers

  /** A 32-bit word, and a byte. */
  type U32 = x: nat | x < 0x1_0000_0000
  type Byte = x: nat | x < 256

  lemma Pow2Of32()
    ensures Pow2(32) == 0x1_0000_0000
  {
    assert Pow2(8) == 256;
    assert Pow2(16) == 65536;
    assert Pow2(24) == 16777216;
  }

  /** Addition modulo 2^32. */
  function Add(x: U32, y: U32): (r: U32)
    ensures r == (x + y) % 0x1_0000_0000
  {
    if x + y < 0x1_0000_0000 then x + y else x + y - 0x1_0000_0000
  }

  /** The bits of a word, and the word of some bits. */
  function Bits(x: U32): (b: set<nat>) {
    BitsOf(x, 32)
  }

  function FromBits(b: set<nat>): (x: U32) {
    Pow2Of32();
    NumberOf(b, 32)
  }

  /** Rotation to the right, section 3.2. */
  function RotR(b: set<nat>, n: nat): (r: set<nat>)
    requires n < 32
    ensures forall i :: i in r <==> 0 <= i < 32 && (if i + n < 32 then i + n else i + n - 32) in b
  {
    set i {:trigger Pow2(i)} | 0 <= i < 32 && (if i + n < 32 then i + n else i + n - 32) in b
  }

  // The functions of section 4.1.2.

  function Ch(x: U32, y: U32, z: U32): (r: U32) {
    FromBits(Xor(Bits(x) * Bits(y), Bits(z) - Bits(x)))
  }

  function Maj(x: U32, y: U32, z: U32): (r: U32) {
    FromBits(Xor(Xor(Bits(x) * Bits(y), Bits(x) * Bits(z)), Bits(y) * Bits(z)))
  }

  lemma BitsOfWord(b: set<nat>)
    requires forall i | i in b :: i < 32
    ensures Bits(FromBits(b)) == b
  {
    BitsOfNumber(b, 32);
  }

  /** Ch chooses: the bits of y where x has a one, and those of z elsewhere. */
  lemma ChChooses(x: U32, y: U32, z: U32, i: nat)
    ensures i in Bits(Ch(x, y, z)) <==> if i in Bits(x) then i in Bits(y) else i in Bits(z)
  {
    BitsOfWord(Xor(Bits(x) * Bits(y), Bits(z) - Bits(x)));
  }

  /** Maj takes the majority: a one where two of the words have one. */
  lemma MajIsMajority(x: U32, y: U32, z: U32, i: nat)
    ensures i in Bits(Maj(x, y, z)) <==>
            (if i in Bits(x) then 1 else 0) + (if i in Bits(y) then 1 else 0) + (if i in Bits(z) then 1 else 0) >= 2
  {
    BitsOfWord(Xor(Xor(Bits(x) * Bits(y), Bits(x) * Bits(z)), Bits(y) * Bits(z)));
  }

  function Sigma0(x: U32): (r: U32) {
    FromBits(Xor(Xor(RotR(Bits(x), 2), RotR(Bits(x), 13)), RotR(Bits(x), 22)))
  }

  function Sigma1(x: U32): (r: U32) {
    FromBits(Xor(Xor(RotR(Bits(x), 6), RotR(Bits(x), 11)), RotR(Bits(x), 25)))
  }

  function SmallSigma0(x: U32): (r: U32) {
    FromBits(Xor(Xor(RotR(Bits(x), 7), RotR(Bits(x), 18)), Shr(Bits(x), 3)))
  }

  function SmallSigma1(x: U32): (r: U32) {
    FromBits(Xor(Xor(RotR(Bits(x), 17), RotR(Bits(x), 19)), Shr(Bits(x), 10)))
  }

  /** The constants of section 4.2.2. */
  function Constants(): (ks: seq<U32>)
    ensures |ks| == 64
  {
    Constants00() + Constants16() + Constants32() + Constants48()
  }

  function Constants00(): (ks: seq<U32>)
    ensures |ks| == 16
  {
    [0x428a2f98, 0x71374491, 0xb5c0fbcf, 0xe9b5dba5, 0x3956c25b, 0x59f111f1, 0x923f82a4, 0xab1c5ed5,
     0xd807aa98, 0x12835b01, 0x243185be, 0x550c7dc3, 0x72be5d74, 0x80deb1fe, 0x9bdc06a7, 0xc19bf174]
  }

  function Constants16(): (ks: seq<U32>)
    ensures |ks| == 16
  {
    [0xe49b69c1, 0xefbe4786, 0x0fc19dc6, 0x240ca1cc, 0x2de92c6f, 0x4a7484aa, 0x5cb0a9dc, 0x76f988da,
     0x983e5152, 0xa831c66d, 0xb00327c8, 0xbf597fc7, 0xc6e00bf3, 0xd5a79147, 0x06ca6351, 0x14292967]
  }

  function Constants32(): (ks: seq<U32>)
    ensures |ks| == 16
  {
    [0x27b70a85, 0x2e1b2138, 0x4d2c6dfc, 0x53380d13, 0x650a7354, 0x766a0abb, 0x81c2c92e, 0x92722c85,
     0xa2bfe8a1, 0xa81a664b, 0xc24b8b70, 0xc76c51a3, 0xd192e819, 0xd6990624, 0xf40e3585, 0x106aa070]
  }

  function Constants48(): (ks: seq<U32>)
    ensures |ks| == 16
  {
    [0x19a4c116, 0x1e376c08, 0x2748774c, 0x34b0bcb5, 0x391c0cb3, 0x4ed8aa4a, 0x5b9cca4f, 0x682e6ff3,
     0x748f82ee, 0x78a5636f, 0x84c87814, 0x8cc70208, 0x90befffa, 0xa4506ceb, 0xbef9a3f7, 0xc67178f2]
  }

  /** The working variables. */
  datatype Regs = Regs(a: U32, b: U32, c: U32, d: U32, e: U32, f: U32, g: U32, h: U32)

  /** The first n words of the message schedule, section 6.2.2, step 1. */
  function Schedule(m: seq<U32>, n: nat): (W: seq<U32>)
    requires |m| == 16
    ensures |W| == n
  {
    if n <= 16 then m[..n] else
    var W := Schedule(m, n - 1);
    W + [Scheduled(W, n - 1)]
  }

  /** Word t of the schedule, from the words before it. */
  function Scheduled(W: seq<U32>, t: nat): (w: U32)
    requires 16 <= t <= |W|
  {
    Add(Add(Add(SmallSigma1(W[t - 2]), W[t - 7]), SmallSigma0(W[t - 15])), W[t - 16])
  }

  /** One iteration of step 3, with the constant k and the word w of the schedule. */
  function Round(r: Regs, k: U32, w: U32): (r': Regs) {
    var T1 := Add(Add(Add(Add(r.h, Sigma1(r.e)), Ch(r.e, r.f, r.g)), k), w);
    var T2 := Add(Sigma0(r.a), Maj(r.a, r.b, r.c));
    Regs(Add(T1, T2), r.a, r.b, r.c, Add(r.d, T1), r.e, r.f, r.g)
  }

  /** The first t iterations of step 3. */
  function Rounds(r: Regs, ks: seq<U32>, W: seq<U32>, t: nat): (r': Regs)
    requires t <= |W| && t <= |ks|
  {
    if t == 0 then r else Round(Rounds(r, ks, W, t - 1), ks[t - 1], W[t - 1])
  }

  function AddRegs(H: Regs, r: Regs): (H': Regs) {
    Regs(Add(H.a, r.a), Add(H.b, r.b), Add(H.c, r.c), Add(H.d, r.d), Add(H.e, r.e), Add(H.f, r.f), Add(H.g, r.g),
      Add(H.h, r.h))
  }

  /** The next intermediate hash value, steps 1 to 4. */
  function Compress(H: Regs, m: seq<U32>): (H': Regs)
    requires |m| == 16
  {
    AddRegs(H, Rounds(H, Constants(), Schedule(m, 64), 64))
  }

  /** The big-endian word of four bytes, and back. */
  function FromBytes(b0: Byte, b1: Byte, b2: Byte, b3: Byte): (x: U32) {
    b0 * 0x100_0000 + b1 * 0x1_0000 + b2 * 0x100 + b3
  }

  function ToBytes(x: U32): (bs: seq<Byte>)
    ensures |bs| == 4
  {
    [x / 0x100_0000, x / 0x1_0000 % 0x100, x / 0x100 % 0x100, x % 0x100]
  }

  lemma NestedQuotients(x: nat)
    ensures x / 0x1_0000 == x / 0x100 / 0x100 && x / 0x100_0000 == x / 0x1_0000 / 0x100
  {
  }

  /** The bytes of a word, the most significant one first. */
  lemma ValueOfBytes(x: U32)
    ensures var b: seq<nat> := ToBytes(x); x == b[0] * 0x100_0000 + b[1] * 0x1_0000 + b[2] * 0x100 + b[3]
  {
    NestedQuotients(x);
    var a, b, c := x / 0x100, x / 0x1_0000, x / 0x100_0000;
    assert x == a * 0x100 + x % 0x100 && a == b * 0x100 + a % 0x100 && b == c * 0x100 + b % 0x100;
  }

  /** The bytes of the word made of four bytes. */
  lemma BytesBack(b0: Byte, b1: Byte, b2: Byte, b3: Byte)
    ensures ToBytes(FromBytes(b0, b1, b2, b3)) == [b0, b1, b2, b3]
  {
    var x := FromBytes(b0, b1, b2, b3);
    NestedQuotients(x);
    QuotientIs(x, b0 * 0x1_0000 + b1 * 0x100 + b2, b3, 0x100);
    QuotientIs(x / 0x100, b0 * 0x100 + b1, b2, 0x100);
    QuotientIs(x / 0x1_0000, b0, b1, 0x100);
  }

  /** The words of a block. */
  function BlockWords(block: seq<Byte>): (m: seq<U32>)
    requires |block| == 64
    ensures |m| == 16
  {
    seq(16, i requires 0 <= i < 16 => FromBytes(block[4 * i], block[4 * i + 1], block[4 * i + 2], block[4 * i + 3]))
  }

  /** The hash value after the whole blocks of a message. */
  function Absorb<S>(step: (S, seq<Byte>) -> S, H: S, msg: seq<Byte>): (H': S)
    decreases |msg|
  {
    if |msg| < 64 then H else Absorb(step, step(H, msg[..64]), msg[64..])
  }

  function CompressBlock(H: Regs, block: seq<Byte>): (H': Regs) {
    if |block| == 64 then Compress(H, BlockWords(block)) else H
  }

  /** The initial hash value, section 5.3.3. */
  function InitialHash(): (H: Regs) {
    Regs(0x6a09e667, 0xbb67ae85, 0x3c6ef372, 0xa54ff53a, 0x510e527f, 0x9b05688c, 0x1f83d9ab, 0x5be0cd19)
  }

  /** The number of zero bytes in the padding of a message of n bytes, section 5.1.1. */
  function ZeroBytes(n: nat): (k: nat)
    ensures k < 64 && (n + 1 + k + 8) % 64 == 0
  {
    if n % 64 < 56 then 55 - n % 64 else 119 - n % 64
  }

  function Zeros(n: nat): (z: seq<Byte>)
    ensures |z| == n && forall i | 0 <= i < n :: z[i] == 0
  {
    seq(n, _ => 0)
  }

  /** The padding: a one bit, zeros, and the length in bits as a 64-bit number. */
  function Pad(msg: seq<Byte>): (padded: seq<Byte>)
    requires 8 * |msg| < 0x1_0000_0000_0000_0000
    ensures |padded| % 64 == 0
  {
    var bits := 8 * |msg|;
    msg + [0x80] + Zeros(ZeroBytes(|msg|)) + ToBytes(bits / 0x1_0000_0000) + ToBytes(bits % 0x1_0000_0000)
  }

  function RegsBytes(H: Regs): (bs: seq<Byte>)
    ensures |bs| == 32
  {
    ToBytes(H.a) + ToBytes(H.b) + ToBytes(H.c) + ToBytes(H.d) + ToBytes(H.e) + ToBytes(H.f) + ToBytes(H.g)
      + ToBytes(H.h)
  }

  /** The digest of a message, section 6.2. */
  function Digest(msg: seq<Byte>): (md: seq<Byte>)
    requires 8 * |msg| < 0x1_0000_0000_0000_0000
    ensures |md| == 32
  {
    RegsBytes(Absorb(CompressBlock, InitialHash(), Pad(msg)))
  }

  /** Whole blocks can be absorbed first. */
  lemma {:induction false} AbsorbConcat<S>(step: (S, seq<Byte>) -> S, H: S, x: seq<Byte>, y: seq<Byte>)
    requires |x| % 64 == 0
    ensures Absorb(step, H, x + y) == Absorb(step, Absorb(step, H, x), y)
    decreases |x|
  {
    if x == [] {
      assert x + y == y;
    } else {
      AbsorbConcat(step, step(H, x[..64]), x[64..], y);
      assert (x + y)[..64] == x[..64] && (x + y)[64..] == x[64..] + y;
    }
  }

  lemma {:induction false} ScheduleWord(m: seq<U32>, n: nat, t: nat)
    requires |m| == 16 && t < n
    ensures Schedule(m, n)[t] == if t < 16 then m[t] else Scheduled(Schedule(m, n), t)
  {
    if n > 16 && t < n - 1 {
      ScheduleWord(m, n - 1, t);
    }
  }
}
