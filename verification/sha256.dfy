/** The implementation of SHA-256: a ring of 16 words for the schedule, registers that change their names instead of
    their values, and a buffer for messages that come in pieces. */
module Sha256 {
  import opened Words
  import opened Numbers
  import opened Fips180

  /** The macro ROTATE: rotation to the left by n. */
  function Rotate(b: set<nat>, n: nat): (r: set<nat>)
    requires 0 < n < 32
    ensures forall i :: i in r <==> 0 <= i < 32 && (if i >= n then i - n else i + 32 - n) in b
  {
    set i {:trigger Pow2(i)} | 0 <= i < 32 && (if i >= n then i - n else i + 32 - n) in b
  }

  lemma RotateIsRotR(b: set<nat>, n: nat)
    requires 0 < n < 32
    ensures Rotate(b, n) == RotR(b, 32 - n)
  {
  }

  // The macros Sigma0, Sigma1, sigma0 and sigma1.

  function BigSigma0(x: U32): (r: U32) {
    FromBits(Xor(Xor(Rotate(Bits(x), 30), Rotate(Bits(x), 19)), Rotate(Bits(x), 10)))
  }

  function BigSigma1(x: U32): (r: U32) {
    FromBits(Xor(Xor(Rotate(Bits(x), 26), Rotate(Bits(x), 21)), Rotate(Bits(x), 7)))
  }

  function LowSigma0(x: U32): (r: U32) {
    FromBits(Xor(Xor(Rotate(Bits(x), 25), Rotate(Bits(x), 14)), Shr(Bits(x), 3)))
  }

  function LowSigma1(x: U32): (r: U32) {
    FromBits(Xor(Xor(Rotate(Bits(x), 15), Rotate(Bits(x), 13)), Shr(Bits(x), 10)))
  }

  // The macros rotate to the left where the standard rotates to the right.

  lemma BigSigma0Agrees(x: U32)
    ensures BigSigma0(x) == Sigma0(x)
  {
    RotateIsRotR(Bits(x), 30);
    RotateIsRotR(Bits(x), 19);
    RotateIsRotR(Bits(x), 10);
  }

  lemma BigSigma1Agrees(x: U32)
    ensures BigSigma1(x) == Sigma1(x)
  {
    RotateIsRotR(Bits(x), 26);
    RotateIsRotR(Bits(x), 21);
    RotateIsRotR(Bits(x), 7);
  }

  lemma LowSigma0Agrees(x: U32)
    ensures LowSigma0(x) == SmallSigma0(x)
  {
    RotateIsRotR(Bits(x), 25);
    RotateIsRotR(Bits(x), 14);
  }

  lemma LowSigma1Agrees(x: U32)
    ensures LowSigma1(x) == SmallSigma1(x)
  {
    RotateIsRotR(Bits(x), 15);
    RotateIsRotR(Bits(x), 13);
  }

  /** The macro ROUND_00_15: the new values of d and h. */
  function RoundMacro(k: U32, a: U32, b: U32, c: U32, d: U32, e: U32, f: U32, g: U32, h: U32, w: U32): (r: (U32, U32)) {
    var T1 := Add(w, Add(Add(Add(h, BigSigma1(e)), Ch(e, f, g)), k));
    var h' := Add(BigSigma0(a), Maj(a, b, c));
    (Add(d, T1), Add(h', T1))
  }

  /** The round leaves the registers where they are; the next one calls them by other names. */
  lemma MacroIsRound(k: U32, r: Regs, w: U32)
    ensures var (d, h) := RoundMacro(k, r.a, r.b, r.c, r.d, r.e, r.f, r.g, r.h, w);
      Round(r, k, w) == Regs(h, r.a, r.b, r.c, d, r.e, r.f, r.g)
  {
    BigSigma0Agrees(r.a);
    BigSigma1Agrees(r.e);
  }

  lemma NextRound(r: Regs, ks: seq<U32>, H: Regs, W: seq<U32>, t: nat)
    requires t < |W| && t < |ks| && r == Rounds(H, ks, W, t)
    ensures var (d, h) := RoundMacro(ks[t], r.a, r.b, r.c, r.d, r.e, r.f, r.g, r.h, W[t]);
      Regs(h, r.a, r.b, r.c, d, r.e, r.f, r.g) == Rounds(H, ks, W, t + 1)
  {
    MacroIsRound(ks[t], r, W[t]);
  }

  /** The ring holds the last 16 words of the schedule before word t. */
  ghost predicate Ring(X: seq<U32>, W: seq<U32>, t: nat)
    requires |X| == 16 && t <= |W|
  {
    forall u | t <= u + 16 && 0 <= u < t :: X[u % 16] == W[u]
  }

  lemma RingStep(X: seq<U32>, W: seq<U32>, t: nat)
    requires |X| == 16 && t < |W| && Ring(X, W, t)
    ensures Ring(X[t % 16 := W[t]], W, t + 1)
  {
    forall u | t + 1 <= u + 16 && 0 <= u < t + 1
      ensures X[t % 16 := W[t]][u % 16] == W[u]
    {
      if u < t {
        assert u % 16 != t % 16;
      }
    }
  }

  /** The word that ROUND_16_63 puts into the ring. */
  function NextWord(X: seq<U32>, i: nat): (w: U32)
    requires |X| == 16
  {
    Add(X[i % 16], Add(Add(LowSigma0(X[(i + 1) % 16]), LowSigma1(X[(i + 14) % 16])), X[(i + 9) % 16]))
  }

  lemma FourTerms(x: U32, y: U32, z: U32, w: U32)
    ensures Add(x, Add(Add(y, z), w)) == Add(Add(Add(z, w), y), x)
  {
  }

  /** The ring knows enough to compute the next word of the schedule. */
  lemma NextWordIsScheduled(X: seq<U32>, W: seq<U32>, t: nat)
    requires |X| == 16 && 16 <= t <= |W| && Ring(X, W, t)
    ensures NextWord(X, t) == Scheduled(W, t)
  {
    assert (t - 16) % 16 == t % 16 && (t - 15) % 16 == (t + 1) % 16 && (t - 2) % 16 == (t + 14) % 16
      && (t - 7) % 16 == (t + 9) % 16;
    var x16, x15, x7, x2 := X[t % 16], X[(t + 1) % 16], X[(t + 9) % 16], X[(t + 14) % 16];
    LowSigma0Agrees(x15);
    LowSigma1Agrees(x2);
    FourTerms(x16, LowSigma0(x15), LowSigma1(x2), x7);
  }

  /** The words of the schedule of a block. */
  ghost predicate IsSchedule(W: seq<U32>, m: seq<U32>)
    requires |m| == 16
  {
    // The condition is named so that the verifier does not split it.
    |W| == 64 && var words := forall t | 0 <= t < 64 :: W[t] == if t < 16 then m[t] else Scheduled(W, t); words
  }

  /** The first assignment of ROUND_16_63. */
  method NextInRing(X: array<U32>, i: nat, ghost W: seq<U32>, ghost m: seq<U32>) returns (T1: U32)
    requires X.Length == |m| == 16 && IsSchedule(W, m) && 16 <= i < 64 && Ring(X[..], W, i)
    modifies X
    ensures T1 == W[i] && Ring(X[..], W, i + 1)
  {
    ghost var before := X[..];
    NextWordIsScheduled(before, W, i);
    RingStep(before, W, i);
    var s0 := LowSigma0(X[(i + 1) % 16]);
    var s1 := LowSigma1(X[(i + 14) % 16]);
    T1 := Add(X[i % 16], Add(Add(s0, s1), X[(i + 9) % 16]));
    X[i % 16] := T1;
    assert X[..] == before[i % 16 := T1];
  }

  /** The assignments before ROUND_00_15: a word of the message. */
  method LoadWord(X: array<U32>, i: nat, block: seq<Byte>, ghost W: seq<U32>) returns (T1: U32)
    requires X.Length == 16 && |block| == 64 && IsSchedule(W, BlockWords(block)) && i < 16 && Ring(X[..], W, i)
    modifies X
    ensures T1 == W[i] && Ring(X[..], W, i + 1)
  {
    ghost var before := X[..];
    RingStep(before, W, i);
    T1 := FromBytes(block[4 * i], block[4 * i + 1], block[4 * i + 2], block[4 * i + 3]);
    X[i] := T1;
    assert X[..] == before[i % 16 := T1];
  }

  /** Eight of the first 16 rounds. The registers take turns, so that after eight rounds they have their names back. */
  method EightLoaded(X: array<U32>, i: nat, r: Regs, ks: seq<U32>, block: seq<Byte>, ghost H: Regs, ghost W: seq<U32>)
    returns (r': Regs)
    requires X.Length == 16 && |block| == |ks| == 64 && IsSchedule(W, BlockWords(block)) && i <= 8 && Ring(X[..], W, i)
    requires r == Rounds(H, ks, W, i)
    modifies X
    ensures Ring(X[..], W, i + 8) && r' == Rounds(H, ks, W, i + 8)
  {
    var a, b, c, d, e, f, g, h := r.a, r.b, r.c, r.d, r.e, r.f, r.g, r.h;
    var T1 := LoadWord(X, i, block, W);
    d, h := OneRound(ks, i, a, b, c, d, e, f, g, h, T1, H, W);
    T1 := LoadWord(X, i + 1, block, W);
    c, g := OneRound(ks, i + 1, h, a, b, c, d, e, f, g, T1, H, W);
    T1 := LoadWord(X, i + 2, block, W);
    b, f := OneRound(ks, i + 2, g, h, a, b, c, d, e, f, T1, H, W);
    T1 := LoadWord(X, i + 3, block, W);
    a, e := OneRound(ks, i + 3, f, g, h, a, b, c, d, e, T1, H, W);
    T1 := LoadWord(X, i + 4, block, W);
    h, d := OneRound(ks, i + 4, e, f, g, h, a, b, c, d, T1, H, W);
    T1 := LoadWord(X, i + 5, block, W);
    g, c := OneRound(ks, i + 5, d, e, f, g, h, a, b, c, T1, H, W);
    T1 := LoadWord(X, i + 6, block, W);
    f, b := OneRound(ks, i + 6, c, d, e, f, g, h, a, b, T1, H, W);
    T1 := LoadWord(X, i + 7, block, W);
    e, a := OneRound(ks, i + 7, b, c, d, e, f, g, h, a, T1, H, W);
    r' := Regs(a, b, c, d, e, f, g, h);
  }

  /** The macro ROUND_00_15, as an assignment to the registers it is given as d and h. */
  method OneRound(ks: seq<U32>, i: nat, a: U32, b: U32, c: U32, d: U32, e: U32, f: U32, g: U32, h: U32, T1: U32,
                  ghost H: Regs, ghost W: seq<U32>)
    returns (d': U32, h': U32)
    requires i < |ks| == |W| && T1 == W[i] && Regs(a, b, c, d, e, f, g, h) == Rounds(H, ks, W, i)
    ensures Regs(h', a, b, c, d', e, f, g) == Rounds(H, ks, W, i + 1)
  {
    NextRound(Regs(a, b, c, d, e, f, g, h), ks, H, W, i);
    var dh := RoundMacro(ks[i], a, b, c, d, e, f, g, h, T1);
    d', h' := dh.0, dh.1;
  }

  /** The body of the loop over the rounds from 16 on: eight times ROUND_16_63. */
  method EightScheduled(X: array<U32>, i: nat, r: Regs, ks: seq<U32>, ghost m: seq<U32>, ghost H: Regs,
                        ghost W: seq<U32>) returns (r': Regs)
    requires X.Length == |m| == 16 && |ks| == 64 && IsSchedule(W, m) && 16 <= i <= 56 && Ring(X[..], W, i)
    requires r == Rounds(H, ks, W, i)
    modifies X
    ensures Ring(X[..], W, i + 8) && r' == Rounds(H, ks, W, i + 8)
  {
    var a, b, c, d, e, f, g, h := r.a, r.b, r.c, r.d, r.e, r.f, r.g, r.h;
    var T1 := NextInRing(X, i, W, m);
    d, h := OneRound(ks, i, a, b, c, d, e, f, g, h, T1, H, W);
    T1 := NextInRing(X, i + 1, W, m);
    c, g := OneRound(ks, i + 1, h, a, b, c, d, e, f, g, T1, H, W);
    T1 := NextInRing(X, i + 2, W, m);
    b, f := OneRound(ks, i + 2, g, h, a, b, c, d, e, f, T1, H, W);
    T1 := NextInRing(X, i + 3, W, m);
    a, e := OneRound(ks, i + 3, f, g, h, a, b, c, d, e, T1, H, W);
    T1 := NextInRing(X, i + 4, W, m);
    h, d := OneRound(ks, i + 4, e, f, g, h, a, b, c, d, T1, H, W);
    T1 := NextInRing(X, i + 5, W, m);
    g, c := OneRound(ks, i + 5, d, e, f, g, h, a, b, c, T1, H, W);
    T1 := NextInRing(X, i + 6, W, m);
    f, b := OneRound(ks, i + 6, c, d, e, f, g, h, a, b, T1, H, W);
    T1 := NextInRing(X, i + 7, W, m);
    e, a := OneRound(ks, i + 7, b, c, d, e, f, g, h, a, T1, H, W);
    r' := Regs(a, b, c, d, e, f, g, h);
  }

  lemma WholeSchedule(m: seq<U32>)
    requires |m| == 16
    ensures IsSchedule(Schedule(m, 64), m)
  {
    forall t | 0 <= t < 64
      ensures Schedule(m, 64)[t] == if t < 16 then m[t] else Scheduled(Schedule(m, 64), t)
    {
      ScheduleWord(m, 64, t);
    }
  }

  lemma RoomForEight(i: nat, n: nat)
    requires i == 16 + 8 * n && i < 64
    ensures i <= 56 && n <= 5
  {
  }

  /** The loop over the rounds from 16 on. */
  method LaterRounds(X: array<U32>, r16: Regs, ks: seq<U32>, ghost m: seq<U32>, ghost H: Regs, ghost W: seq<U32>)
    returns (r: Regs)
    requires X.Length == |m| == 16 && |ks| == 64 && IsSchedule(W, m) && Ring(X[..], W, 16)
      && r16 == Rounds(H, ks, W, 16)
    modifies X
    ensures r == Rounds(H, ks, W, |W|)
  {
    r := r16;
    var i := 16;
    ghost var n := 0;
    while i < 64
      invariant i == 16 + 8 * n && n <= 6
      invariant Ring(X[..], W, i) && r == Rounds(H, ks, W, i)
    {
      RoomForEight(i, n);
      r := EightScheduled(X, i, r, ks, m, H, W);
      i, n := i + 8, n + 1;
    }
  }

  /** The rounds of one block. */
  method AllRounds(H: Regs, ks: seq<U32>, block: seq<Byte>, ghost W: seq<U32>) returns (r: Regs)
    requires |block| == |ks| == 64 && IsSchedule(W, BlockWords(block))
    ensures r == Rounds(H, ks, W, |W|)
  {
    var X := new U32[16](_ => 0);
    r := EightLoaded(X, 0, H, ks, block, H, W);
    r := EightLoaded(X, 8, r, ks, block, H, W);
    r := LaterRounds(X, r, ks, BlockWords(block), H, W);
  }

  /** One block of sha256_block_data_order: the result is the next hash value of the standard. */
  method ProcessBlock(H: Regs, block: seq<Byte>) returns (H': Regs)
    requires |block| == 64
    ensures H' == CompressBlock(H, block)
  {
    WholeSchedule(BlockWords(block));
    var r := AllRounds(H, Constants(), block, Schedule(BlockWords(block), 64));
    H' := Regs(Add(H.a, r.a), Add(H.b, r.b), Add(H.c, r.c), Add(H.d, r.d), Add(H.e, r.e), Add(H.f, r.f), Add(H.g, r.g),
               Add(H.h, r.h));
  }
}
