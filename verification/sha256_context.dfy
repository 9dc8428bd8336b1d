/** SHA-256 of a message that comes in pieces. */
module Sha256Context {
  import opened Fips180
  import opened Sha256

  const P32: nat := 0x1_0000_0000
  const P64: nat := 0x1_0000_0000_0000_0000

  /** memcpy */
  method Copy(p: array<Byte>, at: nat, bytes: seq<Byte>)
    requires at + |bytes| <= p.Length
    modifies p
    ensures p[..at] == old(p[..at]) && p[at..at + |bytes|] == bytes
  {
    for i := 0 to |bytes|
      invariant p[..at] == old(p[..at]) && p[at..at + i] == bytes[..i]
    {
      p[at + i] := bytes[i];
    }
    assert bytes[..|bytes|] == bytes;
  }

  /** The bit count: the words Nh and Nl hold 8n modulo 2^64. */
  ghost predicate CountsBits(Nh: U32, Nl: U32, n: nat) {
    exists wraps: nat :: 8 * n == Nh * P32 + Nl + wraps * P64
  }

  /** The new bit count, as Update computes it. */
  function NewLow(Nl: U32, len: nat): (l: U32) {
    Add(Nl, 8 * (len % P32) % P32)
  }

  function NewHigh(Nh: U32, Nl: U32, len: nat): (h: U32) {
    Add(if NewLow(Nl, len) < Nl then Add(Nh, 1) else Nh, len / 0x2000_0000 % P32)
  }

  lemma CountMore(Nh: U32, Nl: U32, n: nat, len: nat)
    requires CountsBits(Nh, Nl, n)
    ensures CountsBits(NewHigh(Nh, Nl, len), NewLow(Nl, len), n + len)
  {
    var wraps: nat :| 8 * n == Nh * P32 + Nl + wraps * P64;
    var low, high := 8 * (len % P32) % P32, len / 0x2000_0000;
    assert 8 * len == high * P32 + low by { BitLength(len); }
    var carry := if NewLow(Nl, len) < Nl then 1 else 0;
    assert Nl + low == NewLow(Nl, len) + carry * P32;
    var q := high / P32;
    var sum := Nh + carry + high % P32;
    var over := (sum - NewHigh(Nh, Nl, len)) / P32;
    assert sum == NewHigh(Nh, Nl, len) + over * P32;
    assert 8 * (n + len) == NewHigh(Nh, Nl, len) * P32 + NewLow(Nl, len) + (wraps + q + over) * P64;
  }

  lemma BitLength(len: nat)
    ensures 8 * len == len / 0x2000_0000 * P32 + 8 * (len % P32) % P32
  {
  }

  lemma ExactCount(Nh: U32, Nl: U32, n: nat)
    requires CountsBits(Nh, Nl, n) && 8 * n < P64
    ensures Nh == 8 * n / P32 && Nl == 8 * n % P32
  {
  }

  /** Absorbing one more block. */
  lemma AbsorbNext(H: Regs, x: seq<Byte>, block: seq<Byte>)
    requires |x| % 64 == 0 && |block| == 64
    ensures Absorb(CompressBlock, H, x + block) == CompressBlock(Absorb(CompressBlock, H, x), block)
  {
    AbsorbConcat(CompressBlock, H, x, block);
    assert block[..64] == block && block[64..] == [];
  }

  lemma WholeSeq(x: seq<Byte>, n: nat)
    requires n == |x|
    ensures x[..n] == x
  {
  }

  lemma AbsorbUpTo(H: Regs, input: seq<Byte>, k: nat)
    requires 64 * k + 64 <= |input|
    ensures Absorb(CompressBlock, H, input[..64 * k + 64]) == CompressBlock(Absorb(CompressBlock, H, input[..64 * k]),
      input[64 * k..64 * k + 64])
  {
    AbsorbNext(H, input[..64 * k], input[64 * k..64 * k + 64]);
    assert input[..64 * k + 64] == input[..64 * k] + input[64 * k..64 * k + 64];
  }

  /** sha256_block_data_order: `num` blocks. */
  method BlockDataOrder(H: Regs, input: seq<Byte>, num: nat) returns (H': Regs)
    requires |input| == 64 * num
    ensures H' == Absorb(CompressBlock, H, input)
  {
    H' := H;
    var k, at := 0, 0;
    while k < num
      invariant k <= num && at == 64 * k && H' == Absorb(CompressBlock, H, input[..at])
    {
      AbsorbUpTo(H, input, k);
      H' := ProcessBlock(H', input[at..at + 64]);
      k, at := k + 1, at + 64;
    }
    WholeSeq(input, at);
  }

  /** The state H after the whole blocks `done`, with `tail` in the buffer. */
  ghost predicate Holds<S(!new)>(step: (S, seq<Byte>) -> S, init: S, H: S, done: seq<Byte>, tail: seq<Byte>,
                                 msg: seq<Byte>) {
    |done| % 64 == 0 && |tail| < 64 && msg == done + tail && H == Absorb(step, init, done)
  }

  lemma WholeSum(x: nat, y: nat)
    requires x % 64 == 0 && y % 64 == 0
    ensures (x + y) % 64 == 0
  {
  }

  lemma Longer(done: seq<Byte>, tail: seq<Byte>, input: seq<Byte>)
    ensures (done + tail) + input == done + (tail + input)
  {
  }

  lemma WholeConcat(x: seq<Byte>, y: seq<Byte>)
    requires |x| % 64 == 0 && |y| % 64 == 0
    ensures |x + y| % 64 == 0 && |x + y| == |x| + |y|
  {
    WholeSum(|x|, |y|);
  }

  lemma MoreBlocks<S(!new)>(step: (S, seq<Byte>) -> S, init: S, H: S, before: seq<Byte>, blocks: seq<Byte>,
                            tail: seq<Byte>, rest: seq<Byte>)
    requires Holds(step, init, H, before, [], before) && |blocks| % 64 == 0 && |tail| < 64 && blocks + tail == rest
    ensures Holds(step, init, Absorb(step, H, blocks), before + blocks, tail, before + rest)
  {
    AbsorbConcat(step, init, before, blocks);
    WholeConcat(before, blocks);
    Longer(before, blocks, tail);
  }

  /** The whole blocks of a piece, and what is left. */
  method Split(rest: seq<Byte>) returns (n: nat, blocks: seq<Byte>, tail: seq<Byte>)
    ensures |blocks| == 64 * n && |blocks| % 64 == 0 && |tail| < 64 && blocks + tail == rest
  {
    n := |rest| / 64;
    blocks, tail := rest[..64 * n], rest[64 * n..];
  }

  lemma JoinParts(p: array<Byte>, m: nat, n: nat)
    requires m <= n <= p.Length
    ensures p[..n] == p[..m] + p[m..n]
  {
  }

  lemma WholeArray(p: array<Byte>)
    ensures p[..] == p[..p.Length]
  {
  }

  class Context {
    var H: Regs
    var Nl: U32
    var Nh: U32
    const data: array<Byte>
    var num: nat
    ghost var msg: seq<Byte>
    ghost var done: seq<Byte>

    ghost predicate Valid()
      reads this, data
    {
      data.Length == 64 && num < 64 && Holds(CompressBlock, InitialHash(), H, done, data[..num], msg)
        && CountsBits(Nh, Nl, |msg|)
    }

    /** SHA256_Init */
    constructor ()
      ensures Valid() && msg == [] && fresh(data)
    {
      H := InitialHash();
      Nl, Nh, num := 0, 0, 0;
      data := new Byte[64](_ => 0);
      msg, done := [], [];
      new;
      assert 8 * 0 == Nh * P32 + Nl + 0 * P64;
    }

    /** The part of SHA256_Update after the buffer has been dealt with: the whole blocks, and the rest. */
    method Finish(rest: seq<Byte>, ghost before: seq<Byte>)
      requires data.Length == 64 && num == 0 && Holds(CompressBlock, InitialHash(), H, before, [], before)
      modifies this, data
      ensures unchanged(`Nl) && unchanged(`Nh) && unchanged(`msg)
      ensures num < 64 && Holds(CompressBlock, InitialHash(), H, done, data[..num], before + rest)
    {
      var n, blocks, tail := Split(rest);
      MoreBlocks(CompressBlock, InitialHash(), H, before, blocks, tail, rest);
      if n > 0 {
        H := BlockDataOrder(H, blocks, n);
      } else {
        assert blocks == [];
      }
      done := before + blocks;
      Keep(tail);
    }

    /** The rest of a piece goes into the buffer. */
    method Keep(tail: seq<Byte>)
      requires data.Length == 64 && num == 0 && |tail| < 64
      modifies this, data
      ensures unchanged(`Nl) && unchanged(`Nh) && unchanged(`msg) && unchanged(`done) && unchanged(`H)
      ensures num == |tail| && data[..num] == tail
    {
      if |tail| != 0 {
        num := |tail|;
        Copy(data, 0, tail);
      }
    }

    /** The bit count of SHA256_Update. */
    method CountLength(len: nat)
      requires CountsBits(Nh, Nl, |msg|)
      modifies this
      ensures unchanged(`num) && unchanged(`msg) && unchanged(`done) && unchanged(`H)
      ensures CountsBits(Nh, Nl, |msg| + len)
    {
      CountMore(Nh, Nl, |msg|, len);
      var l := Add(Nl, 8 * (len % P32) % P32);
      if l < Nl {
        Nh := Add(Nh, 1);
      }
      Nh := Add(Nh, len / 0x2000_0000 % P32);
      Nl := l;
    }

    /** The first bytes of a piece complete the buffer. */
    method Complete(bytes: seq<Byte>) returns (block: seq<Byte>)
      requires data.Length == 64 && num + |bytes| == 64
      modifies data
      ensures block == data[..] == old(data[..num]) + bytes
    {
      Copy(data, num, bytes);
      JoinParts(data, num, 64);
      WholeArray(data);
      block := data[..];
    }

    /** The part of SHA256_Update that completes the block in the buffer. */
    method FillBlock(input: seq<Byte>) returns (rest: seq<Byte>)
      requires data.Length == 64 && num < 64 && Holds(CompressBlock, InitialHash(), H, done, data[..num], msg)
        && |input| + num >= 64
      modifies this, data
      ensures unchanged(`Nl) && unchanged(`Nh) && unchanged(`msg)
      ensures num == 0 && Holds(CompressBlock, InitialHash(), H, done, [], done) && done + rest == msg + input
    {
      var n := 64 - num;
      rest := input[n..];
      FullBlock(CompressBlock, InitialHash(), H, done, data[..num], input, n, msg);
      var block := Complete(input[..n]);
      Copy(data, 0, Zeros(64));
      TakeBlock(block);
    }

    /** The hash value after the block in the buffer. */
    method TakeBlock(block: seq<Byte>)
      requires |block| == 64
      modifies this
      ensures unchanged(`Nl) && unchanged(`Nh) && unchanged(`msg)
      ensures num == 0 && done == old(done) + block && H == CompressBlock(old(H), block)
    {
      done := done + block;
      H := ProcessBlock(H, block);
      num := 0;
    }

    /** SHA256_Update: however a message is cut into pieces, the state is that of the whole message. */
    method Update(input: seq<Byte>)
      requires Valid()
      modifies this, data
      ensures Valid() && msg == old(msg) + input
    {
      if |input| == 0 {
        assert msg + input == msg;
        return;
      }
      CountLength(|input|);
      if num != 0 && |input| < 64 && |input| + num < 64 {
        Append(input);
      } else {
        UpdateBlocks(input);
      }
      msg := msg + input;
    }

    /** A short piece goes into the buffer. */
    method Append(input: seq<Byte>)
      requires data.Length == 64 && |input| + num < 64 && Holds(CompressBlock, InitialHash(), H, done, data[..num], msg)
      modifies this, data
      ensures unchanged(`Nl) && unchanged(`Nh) && unchanged(`msg)
      ensures num < 64 && Holds(CompressBlock, InitialHash(), H, done, data[..num], msg + input)
    {
      ghost var tail := data[..num];
      Copy(data, num, input);
      JoinParts(data, num, num + |input|);
      Longer(done, tail, input);
      num := num + |input|;
    }

    /** A long piece completes the block in the buffer, if there is one, and goes on with whole blocks. */
    method UpdateBlocks(input: seq<Byte>)
      requires data.Length == 64 && num < 64 && Holds(CompressBlock, InitialHash(), H, done, data[..num], msg)
      requires num == 0 || |input| + num >= 64
      modifies this, data
      ensures unchanged(`Nl) && unchanged(`Nh) && unchanged(`msg)
      ensures num < 64 && Holds(CompressBlock, InitialHash(), H, done, data[..num], msg + input)
    {
      var rest := input;
      assert num == 0 ==> data[..num] == [] && msg == done + [] == done;
      if num != 0 {
        rest := FillBlock(input);
      }
      Finish(rest, done);
    }

    /** The one bit of the padding. */
    method MarkEnd() returns (n: nat)
      requires data.Length == 64 && num < 64
      modifies data
      ensures n == num + 1 && data[..n] == old(data[..num]) + [0x80]
    {
      data[num] := 0x80;
      n := num + 1;
    }

    /** A block that has no room for the bit count. */
    method EarlyBlock(n: nat, ghost begun: seq<Byte>)
      requires data.Length == 64 && n <= 64 && data[..n] == begun
      modifies this, data
      ensures unchanged(`Nl) && unchanged(`Nh)
      ensures H == CompressBlock(old(H), begun + Zeros(64 - n))
    {
      PadBlock(n, begun);
      H := ProcessBlock(H, data[..]);
    }

    /** The blocks of SHA256_Final. */
    method FinalBlocks(ghost tail: seq<Byte>)
      requires data.Length == 64 && num < 64 && data[..num] == tail
      modifies this, data
      ensures H == FinalState(CompressBlock, old(H), tail, old(Nh), old(Nl))
    {
      var n := MarkEnd();
      ghost var begun := tail + [0x80];
      if n > 56 {
        EarlyBlock(n, begun);
        n := 0;
        begun := [];
      }
      LastBlock(n, begun);
      EitherWay(CompressBlock, old(H), H, tail, n, begun, Nh, Nl);
      H := ProcessBlock(H, data[..]);
    }

    /** SHA256_Final: the digest of everything that has been added. */
    method Final() returns (md: seq<Byte>)
      requires Valid()
      modifies this, data
      ensures 8 * |old(msg)| < P64 ==> md == Digest(old(msg))
    {
      ghost var tail := data[..num];
      FinalBlocks(tail);
      num := 0;
      Copy(data, 0, Zeros(64));
      md := ToBytes(H.a) + ToBytes(H.b) + ToBytes(H.c) + ToBytes(H.d) + ToBytes(H.e) + ToBytes(H.f) + ToBytes(H.g)
          + ToBytes(H.h);
      if 8 * |old(msg)| < P64 {
        ExactCount(old(Nh), old(Nl), |old(msg)|);
        LastBlocks(CompressBlock, InitialHash(), old(H), old(done), tail, old(msg), old(Nh), old(Nl));
      }
    }

    /** The buffer is filled up with zeros. */
    method PadBlock(n: nat, ghost begun: seq<Byte>)
      requires data.Length == 64 && n <= 64 && data[..n] == begun
      modifies data
      ensures data[..] == begun + Zeros(64 - n)
    {
      Copy(data, n, Zeros(64 - n));
      assert data[..] == data[..n] + data[n..64];
    }

    /** The buffer is filled up with zeros and the bit count. */
    method LastBlock(n: nat, ghost begun: seq<Byte>)
      requires data.Length == 64 && n <= 56 && data[..n] == begun
      modifies data
      ensures data[..] == begun + Zeros(56 - n) + (ToBytes(Nh) + ToBytes(Nl))
    {
      Copy(data, n, Zeros(56 - n));
      assert data[..56] == data[..n] + data[n..n + (56 - n)];
      ghost var start := data[..56];
      Copy(data, 56, ToBytes(Nh));
      assert data[..60] == data[..56] + data[56..60];
      ghost var more := data[..60];
      Copy(data, 60, ToBytes(Nl));
      assert data[..] == data[..60] + data[60..64];
    }
  }

  /** The blocks that SHA256_Final makes of the buffer. */
  ghost function FinalState<S(!new)>(step: (S, seq<Byte>) -> S, H: S, tail: seq<Byte>, Nh: U32, Nl: U32): (H': S)
    requires |tail| < 64
  {
    var length := ToBytes(Nh) + ToBytes(Nl);
    if |tail| + 1 > 56 then step(step(H, tail + [0x80] + Zeros(63 - |tail|)), Zeros(56) + length)
    else step(H, tail + [0x80] + Zeros(55 - |tail|) + length)
  }

  lemma EitherWay<S(!new)>(step: (S, seq<Byte>) -> S, H0: S, H1: S, tail: seq<Byte>, n: nat, begun: seq<Byte>, Nh: U32,
                           Nl: U32)
    requires |tail| < 64 && n <= 56
    requires if |tail| + 1 > 56 then n == 0 && begun == [] && H1 == step(H0, tail + [0x80] + Zeros(64 - (|tail| + 1)))
             else n == |tail| + 1 && begun == tail + [0x80] && H1 == H0
    ensures step(H1, begun + Zeros(56 - n) + (ToBytes(Nh) + ToBytes(Nl))) == FinalState(step, H0, tail, Nh, Nl)
  {
    assert [] + Zeros(56) == Zeros(56);
  }

  lemma OneBlock<S(!new)>(step: (S, seq<Byte>) -> S, H: S, block: seq<Byte>)
    requires |block| == 64
    ensures Absorb(step, H, block) == step(H, block)
  {
    assert block[..64] == block && block[64..] == [];
  }

  lemma TailLength(m: nat, d: nat, t: nat)
    requires m == d + t && d % 64 == 0 && t < 64
    ensures ZeroBytes(m) == if t + 1 > 56 then (63 - t) + 56 else 55 - t
  {
  }

  lemma ZerosSplit(m: nat, n: nat)
    ensures Zeros(m + n) == Zeros(m) + Zeros(n)
  {
  }

  lemma Reassociate(d: seq<Byte>, t: seq<Byte>, one: seq<Byte>, z: seq<Byte>, y: seq<Byte>, hi: seq<Byte>,
                    lo: seq<Byte>)
    ensures d + t + one + (z + y) + hi + lo == d + ((t + one + z) + (y + (hi + lo)))
    ensures d + t + one + z + hi + lo == d + (t + one + z + (hi + lo))
  {
  }

  lemma LongTail<S(!new)>(step: (S, seq<Byte>) -> S, init: S, H: S, done: seq<Byte>, first: seq<Byte>,
                          second: seq<Byte>)
    requires |done| % 64 == 0 && H == Absorb(step, init, done) && |first| == |second| == 64
    ensures Absorb(step, init, done + (first + second)) == step(step(H, first), second)
  {
    AbsorbConcat(step, init, done, first + second);
    AbsorbConcat(step, H, first, second);
    OneBlock(step, H, first);
    OneBlock(step, step(H, first), second);
  }

  lemma ShortTail<S(!new)>(step: (S, seq<Byte>) -> S, init: S, H: S, done: seq<Byte>, block: seq<Byte>)
    requires |done| % 64 == 0 && H == Absorb(step, init, done) && |block| == 64
    ensures Absorb(step, init, done + block) == step(H, block)
  {
    AbsorbConcat(step, init, done, block);
    OneBlock(step, H, block);
  }

  /** They are the end of the padded message. */
  lemma LastBlocks<S(!new)>(step: (S, seq<Byte>) -> S, init: S, H: S, done: seq<Byte>, tail: seq<Byte>, msg: seq<Byte>,
                            Nh: U32, Nl: U32)
    requires Holds(step, init, H, done, tail, msg) && 8 * |msg| < P64 && Nh == 8 * |msg| / P32 && Nl == 8 * |msg| % P32
    ensures FinalState(step, H, tail, Nh, Nl) == Absorb(step, init, Pad(msg))
  {
    var length, t := ToBytes(Nh) + ToBytes(Nl), |tail|;
    TailLength(|msg|, |done|, t);
    if t + 1 > 56 {
      ZerosSplit(63 - t, 56);
      Reassociate(done, tail, [0x80], Zeros(63 - t), Zeros(56), ToBytes(Nh), ToBytes(Nl));
      LongTail(step, init, H, done, tail + [0x80] + Zeros(63 - t), Zeros(56) + length);
    } else {
      Reassociate(done, tail, [0x80], Zeros(55 - t), [], ToBytes(Nh), ToBytes(Nl));
      ShortTail(step, init, H, done, tail + [0x80] + Zeros(55 - t) + length);
    }
  }

  /** SHA256: the digest of a message in one piece. */
  method Hash(d: seq<Byte>) returns (md: seq<Byte>)
    requires 8 * |d| < P64
    ensures md == Digest(d)
  {
    var c := new Context();
    c.Update(d);
    assert [] + d == d;
    md := c.Final();
  }

  /** The buffer and the first n bytes of a piece make a block. */
  lemma FullBlock<S(!new)>(step: (S, seq<Byte>) -> S, init: S, H: S, done: seq<Byte>, tail: seq<Byte>,
                           input: seq<Byte>, n: nat, msg: seq<Byte>)
    requires Holds(step, init, H, done, tail, msg) && |tail| + n == 64 && n <= |input|
    ensures var block := tail + input[..n];
      Holds(step, init, step(H, block), done + block, [], done + block) && (done + block) + input[n..] == msg + input
  {
    var block := tail + input[..n];
    AbsorbConcat(step, init, done, block);
    assert block[..64] == block && block[64..] == [];
    assert input == input[..n] + input[n..];
  }
}
