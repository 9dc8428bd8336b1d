/** Hashes: which ones are kept, and how they are cut into a partition key and a partial hash. */
module Hasher {
  import opened Words
  import opened Numbers
  import opened LoserTree
  import opened Fips180
  import opened Sha256Context

  /** A u32, as the set of its one-bits. */
  type Half = x: Word | forall i | i in x :: i < 32

  /** extract_partial_hash */
  function PartialHash(hash: seq<Half>): (x: Word)
    requires |hash| == 8
  {
    Xor(Xor(Shl(hash[5], 32), hash[6]), hash[4] * {31})
  }

  /** extract_partitioning_key */
  function PartitioningKey(k: nat, hash: seq<Half>): (key: Word)
    requires |hash| == 8 && k <= 31
    ensures forall i | i in key :: i < k
  {
    var low := hash[4] - {31};
    KeyBits(low, 31 - k);
    Shr(low, 31 - k)
  }

  /** As numbers: the low 31 bits of word 4, without the 31 - k lowest ones. */
  lemma KeyValue(k: nat, hash: seq<Half>)
    requires |hash| == 8 && k <= 31
    ensures NumberOf(PartitioningKey(k, hash), k) == NumberOf(hash[4], 32) % 0x8000_0000 / Pow2(31 - k)
  {
    HalfRange();
    var low := hash[4] - {31};
    NumberOfLow(low, hash[4], 31);
    ShiftDivides(hash[4], 31, 32);
    ShiftDivides(low, 31 - k, 31);
  }

  /** As numbers, for a hash that is kept: word 5, and word 6 with the top bit of word 4. */
  lemma PartialValue(hash: seq<Half>)
    requires |hash| == 8 && IsValid(hash)
    ensures NumberOf(PartialHash(hash), 64) == NumberOf(hash[5], 32) * 0x1_0000_0000 + NumberOf(hash[6], 32)
                                               + NumberOf(hash[4], 32) / 0x8000_0000 * 0x8000_0000
  {
    var x := PartialHash(hash);
    HalfRange();
    Pow2Of32();
    forall i: nat
      ensures i in Shr(x, 32) <==> i in hash[5]
    {
      ShrBit(x, 32, i);
    }
    assert Shr(x, 32) == hash[5];
    NumberSplit(x, 32, 32, 64);
    NumberOfLow(x, hash[6], 31);
    TopBitOf(hash[4], NumberOf(hash[4], 32));
    TopBitOf(hash[6], NumberOf(hash[6], 32));
    assert NumberOf(x, 32) == NumberOf(x, 31) + if 31 in x then Pow2(31) else 0;
    assert NumberOf(hash[6], 32) == NumberOf(hash[6], 31);
  }

  lemma KeyBits(low: set<nat>, n: nat)
    ensures forall i :: i in Shr(low, n) <==> i >= 0 && i + n in low
  {
    forall i: nat
      ensures i in Shr(low, n) <==> i + n in low
    {
      ShrBit(low, n, i);
    }
  }

  /** The hashes that compute_full_hash accepts: the 33 top bits are zero. */
  predicate IsValid(hash: seq<Half>)
    requires |hash| == 8
  {
    hash[7] == {} && 31 !in hash[6]
  }

  /** Bit i of word w is bit 32w + i of the hash. */
  ghost predicate TopBitsZero(hash: seq<Half>, n: nat)
    requires |hash| == 8
  {
    forall w, i | 0 <= w < 8 && 0 <= i < 32 && 32 * w + i + n >= 256 :: i !in hash[w]
  }

  lemma ValidMeansTopBits(hash: seq<Half>)
    requires |hash| == 8
    ensures IsValid(hash) <==> TopBitsZero(hash, 33)
  {
    if TopBitsZero(hash, 33) {
      forall i: nat
        ensures i !in hash[7]
      {
        if i < 32 {
          assert 32 * 7 + i + 33 >= 256;
        }
      }
    }
  }

  function XorHalf(x: Half, y: Half): (z: Half) {
    Xor(x, y)
  }

  /** The sum of three hashes. */
  ghost function Sum3(a: seq<Half>, b: seq<Half>, c: seq<Half>): (s: seq<Half>)
    requires |a| == |b| == |c| == 8
    ensures |s| == 8
  {
    seq(8, w requires 0 <= w < 8 => XorHalf(XorHalf(a[w], b[w]), c[w]))
  }

  lemma PartialBit(hash: seq<Half>, i: nat)
    requires |hash| == 8 && IsValid(hash)
    ensures i in PartialHash(hash) <==> if i >= 32 then i - 32 in hash[5] else if i == 31 then 31 in hash[4]
      else i in hash[6]
  {
  }

  lemma KeyBit(k: nat, hash: seq<Half>, i: nat)
    requires |hash| == 8 && k <= 31
    ensures i in PartitioningKey(k, hash) <==> i + (31 - k) < 31 && i + (31 - k) in hash[4]
  {
    KeyBits(hash[4] - {31}, 31 - k);
  }

  /** The three partial hashes add up to zero, and the third key is the sum of the other two. */
  ghost predicate PartsAgree(a: seq<Half>, b: seq<Half>, c: seq<Half>, k: nat)
    requires |a| == |b| == |c| == 8 && k <= 31
  {
    && Xor(Xor(PartialHash(a), PartialHash(b)), PartialHash(c)) == {}
    && PartitioningKey(k, c) == Xor(PartitioningKey(k, a), PartitioningKey(k, b))
  }

  lemma AgreeMeansZero(a: seq<Half>, b: seq<Half>, c: seq<Half>, k: nat)
    requires |a| == |b| == |c| == 8 && k <= 31 && IsValid(a) && IsValid(b) && IsValid(c) && PartsAgree(a, b, c, k)
    ensures TopBitsZero(Sum3(a, b, c), 97 + k)
  {
    var s := Sum3(a, b, c);
    forall w, i | 0 <= w < 8 && 0 <= i < 32 && 32 * w + i + (97 + k) >= 256
      ensures i !in s[w]
    {
      var p := if w == 5 then 32 + i else i;
      PartialBit(a, p);
      PartialBit(b, p);
      PartialBit(c, p);
      assert p !in Xor(Xor(PartialHash(a), PartialHash(b)), PartialHash(c));
      if w == 4 && i < 31 {
        KeyBit(k, a, i - (31 - k));
        KeyBit(k, b, i - (31 - k));
        KeyBit(k, c, i - (31 - k));
      }
    }
  }

  lemma ZeroMeansAgree(a: seq<Half>, b: seq<Half>, c: seq<Half>, k: nat)
    requires |a| == |b| == |c| == 8 && k <= 31 && IsValid(a) && IsValid(b) && IsValid(c)
      && TopBitsZero(Sum3(a, b, c), 97 + k)
    ensures PartsAgree(a, b, c, k)
  {
    var s := Sum3(a, b, c);
    var x := Xor(Xor(PartialHash(a), PartialHash(b)), PartialHash(c));
    forall p: nat
      ensures p !in x
    {
      PartialBit(a, p);
      PartialBit(b, p);
      PartialBit(c, p);
      if p < 64 {
        var w, i := if p >= 32 then 5 else if p == 31 then 4 else 6, if p >= 32 then p - 32 else p;
        assert i !in s[w];
      }
    }
    assert x == {};
    forall i: nat
      ensures i in PartitioningKey(k, c) <==> i in Xor(PartitioningKey(k, a), PartitioningKey(k, b))
    {
      KeyBit(k, a, i);
      KeyBit(k, b, i);
      KeyBit(k, c, i);
      if i + (31 - k) < 31 {
        assert i + (31 - k) !in s[4];
      }
    }
    assert PartitioningKey(k, c) == Xor(PartitioningKey(k, a), PartitioningKey(k, b));
  }

  /** Packing is compatible with XOR: the join of the partial hashes in the partitions i, j and i ^ j finds exactly the
      triples of hashes whose sum starts with 97 + k zero bits. */
  lemma PackingIsCompatible(a: seq<Half>, b: seq<Half>, c: seq<Half>, k: nat)
    requires |a| == |b| == |c| == 8 && k <= 31 && IsValid(a) && IsValid(b) && IsValid(c)
    ensures PartsAgree(a, b, c, k) <==> TopBitsZero(Sum3(a, b, c), 97 + k)
  {
    if PartsAgree(a, b, c, k) {
      AgreeMeansZero(a, b, c, k);
    }
    if TopBitsZero(Sum3(a, b, c), 97 + k) {
      ZeroMeansAgree(a, b, c, k);
    }
  }

  // The 80-byte blocks that are hashed.

  datatype Kind = FOO | BAR | FOOBAR

  /** The text of a block before the counter is written into it. */
  function Template(kind: Kind): (t: seq<Byte>)
    ensures |t| == 80
  {
    var head := match kind
      case FOO => [70, 79, 79, 45, 48, 120]
      case BAR => [66, 65, 82, 45, 48, 120]
      case FOOBAR => [70, 79, 79, 66, 65, 82, 45, 48, 120];
    head + Repeat(48, 16) + Repeat(32, 64 - |head|)
  }

  function Repeat(c: Byte, n: nat): (t: seq<Byte>)
    ensures |t| == n && forall i | 0 <= i < n :: t[i] == c
  {
    seq(n, _ => c)
  }

  /** What a block starts with. */
  function Prefix(kind: Kind): (text: string) {
    match kind
    case FOO => "FOO-0x"
    case BAR => "BAR-0x"
    case FOOBAR => "FOOBAR-0x"
  }

  /** The prefix, sixteen zeros, and blanks. */
  lemma TextOfTemplate(kind: Kind, i: nat)
    requires i < 80
    ensures var n := |Prefix(kind)|;
      Template(kind)[i] as char == if i < n then Prefix(kind)[i] else if i < n + 16 then '0' else ' '
  {
  }

  /** The position of the last digit. */
  function LastDigit(kind: Kind): (j: nat) {
    if kind.FOOBAR? then 25 else 22
  }

  /** The upper-case hexadecimal digits. */
  function Nibble(d: nat): (c: Byte)
    requires d < 16
  {
    if d < 10 then 48 + d else 55 + d
  }

  lemma NibbleIsDigit(d: nat)
    requires d < 16
    ensures Nibble(d) as char == "0123456789ABCDEF"[d] && DigitValue(Nibble(d)) == d
  {
  }

  /** The value of a character that is read as a digit; a blank reads as zero. */
  function DigitValue(c: Byte): (d: nat)
    ensures d < 16
  {
    if 48 <= c < 58 then c - 48 else if 65 <= c < 71 then c - 55 else 0
  }

  /** The number whose n digits end at position j. */
  function ReadHex(t: seq<Byte>, j: int, n: nat): (x: nat)
    requires n <= j + 1 <= |t|
  {
    if n == 0 then 0 else ReadHex(t, j - 1, n - 1) * 16 + DigitValue(t[j])
  }

  /** The text with the digits of the counter written backwards from position j. */
  function WriteHex(t: seq<Byte>, j: int, counter: nat): (t': seq<Byte>)
    requires j < |t|
    ensures |t'| == |t|
    decreases counter
  {
    if counter == 0 || j < 0 then t else WriteHex(t[j := Nibble(counter % 16)], j - 1, counter / 16)
  }

  function Pow16(n: nat): (p: nat) {
    if n == 0 then 1 else 16 * Pow16(n - 1)
  }

  lemma {:induction false} WriteHexElsewhere(t: seq<Byte>, j: int, counter: nat, i: nat)
    requires j < |t| && i < |t| && i > j
    ensures WriteHex(t, j, counter)[i] == t[i]
    decreases counter
  {
    if counter > 0 && j >= 0 {
      WriteHexElsewhere(t[j := Nibble(counter % 16)], j - 1, counter / 16, i);
    }
  }

  lemma {:induction false} WriteHexBefore(t: seq<Byte>, j: int, counter: nat, n: nat, i: nat)
    requires n <= j + 1 <= |t| && counter < Pow16(n) && i + n <= j
    ensures WriteHex(t, j, counter)[i] == t[i]
    decreases counter
  {
    if counter > 0 {
      WriteHexBefore(t[j := Nibble(counter % 16)], j - 1, counter / 16, n - 1, i);
    }
  }

  lemma {:induction false} ReadSame(t: seq<Byte>, t': seq<Byte>, j: int, n: nat)
    requires n <= j + 1 <= |t| == |t'| && forall i | j + 1 - n <= i <= j :: t[i] == t'[i]
    ensures ReadHex(t, j, n) == ReadHex(t', j, n)
  {
    if n > 0 {
      ReadSame(t, t', j - 1, n - 1);
    }
  }

  lemma {:induction false} ReadBlanks(t: seq<Byte>, j: int, n: nat)
    requires n <= j + 1 <= |t| && forall i | j + 1 - n <= i <= j :: DigitValue(t[i]) == 0
    ensures ReadHex(t, j, n) == 0
  {
    if n > 0 {
      ReadBlanks(t, j - 1, n - 1);
    }
  }

  /** What is written is read back. */
  lemma {:induction false} HexRoundTrip(t: seq<Byte>, j: int, counter: nat, n: nat)
    requires n <= j + 1 <= |t| && counter < Pow16(n) && forall i | j + 1 - n <= i <= j :: DigitValue(t[i]) == 0
    ensures ReadHex(WriteHex(t, j, counter), j, n) == counter
    decreases counter
  {
    if counter == 0 {
      ReadBlanks(t, j, n);
    } else {
      var t' := t[j := Nibble(counter % 16)];
      HexRoundTrip(t', j - 1, counter / 16, n - 1);
      WriteHexElsewhere(t', j - 1, counter / 16, j);
    }
  }

  /** The block of a preimage: the text, the digits of the counter, and the nonce in the last four bytes. */
  function Plaintext(kind: Kind, p: Preimage): (block: seq<Byte>)
    requires p.nonce < 0x1_0000_0000
    ensures |block| == 80
  {
    WriteHex(Template(kind), LastDigit(kind), p.counter)[..76] + ToBytes(p.nonce)
  }

  /** The digits of the counter, the last one first. A block has room for 16 of them. */
  method WriteCounter(buffer: array<Byte>, last: nat, value: nat)
    requires 16 <= last < buffer.Length && value < Pow16(16)
    modifies buffer
    ensures buffer[..] == WriteHex(old(buffer[..]), last, value)
  {
    ghost var text := buffer[..];
    var counter: nat, j: int, left: nat := value, last, 16;
    while counter > 0
      invariant j == last - 16 + left && left <= 16 && counter < Pow16(left)
      invariant WriteHex(buffer[..], j, counter) == WriteHex(text, last, value)
    {
      ghost var before := buffer[..];
      buffer[j] := Nibble(counter % 16);
      assert buffer[..] == before[j := Nibble(counter % 16)];
      counter, j, left := counter / 16, j - 1, left - 1;
    }
  }

  /** build_plaintext_block */
  method BuildPlaintextBlock(kind: Kind, p: Preimage, buffer: array<Byte>)
    requires buffer.Length == 80 && p.counter < Pow16(16) && p.nonce < 0x1_0000_0000
    modifies buffer
    ensures buffer[..] == Plaintext(kind, p)
  {
    Copy(buffer, 0, Template(kind));
    assert buffer[..] == buffer[0..80];
    WriteCounter(buffer, LastDigit(kind), p.counter);
    ghost var text := buffer[..];
    Copy(buffer, 76, ToBytes(p.nonce));
    assert buffer[..76] == text[..76];
    assert buffer[..] == buffer[..76] + buffer[76..80];
  }

  lemma ToBytesInjective(x: U32, y: U32)
    requires ToBytes(x) == ToBytes(y)
    ensures x == y
  {
    ValueOfBytes(x);
    ValueOfBytes(y);
  }

  lemma CounterOf(kind: Kind, p: Preimage)
    requires p.counter < Pow16(16) && p.nonce < 0x1_0000_0000
    ensures ReadHex(Plaintext(kind, p), LastDigit(kind), 16) == p.counter
  {
    var j := LastDigit(kind);
    HexRoundTrip(Template(kind), j, p.counter, 16);
    ReadSame(WriteHex(Template(kind), j, p.counter), Plaintext(kind, p), j, 16);
  }

  /** What a block holds: the prefix, the 16 digits of the counter one position further to the right than the zeros
      were, blanks, and the nonce in the last four bytes, the most significant one first. */
  lemma BlockLayout(kind: Kind, p: Preimage)
    requires p.counter < Pow16(16) && p.nonce < 0x1_0000_0000
    ensures var block, n := Plaintext(kind, p), |Prefix(kind)|;
      && (forall i | 0 <= i < n :: block[i] as char == Prefix(kind)[i])
      && LastDigit(kind) == n + 16 && ReadHex(block, n + 16, 16) == p.counter
      && (forall i | n + 16 < i < 76 :: block[i] as char == ' ')
    ensures var block: seq<nat> := Plaintext(kind, p);
      p.nonce == block[76] * 0x100_0000 + block[77] * 0x1_0000 + block[78] * 0x100 + block[79]
  {
    var t, j, n := Template(kind), LastDigit(kind), |Prefix(kind)|;
    CounterOf(kind, p);
    ValueOfBytes(p.nonce);
    forall i | 0 <= i < 76 && (i < n || i > j)
      ensures Plaintext(kind, p)[i] == t[i]
    {
      if i < n {
        WriteHexBefore(t, j, p.counter, 16, i);
      } else {
        WriteHexElsewhere(t, j, p.counter, i);
      }
    }
    forall i | 0 <= i < 80
      ensures t[i] as char == if i < n then Prefix(kind)[i] else if i < n + 16 then '0' else ' '
    {
      TextOfTemplate(kind, i);
    }
  }

  /** Different preimages of the same kind have different blocks. */
  lemma PlaintextInjective(kind: Kind, p: Preimage, q: Preimage)
    requires p.counter < Pow16(16) && p.nonce < 0x1_0000_0000 && q.counter < Pow16(16) && q.nonce < 0x1_0000_0000
    requires Plaintext(kind, p) == Plaintext(kind, q)
    ensures p == q
  {
    CounterOf(kind, p);
    CounterOf(kind, q);
    assert ToBytes(p.nonce) == Plaintext(kind, p)[76..] == Plaintext(kind, q)[76..] == ToBytes(q.nonce);
    ToBytesInjective(p.nonce, q.nonce);
  }

  /** The text before the digits is not touched, so the kind can be read off the block. */
  lemma KindOfBlock(kind: Kind, p: Preimage, kind': Kind, q: Preimage)
    requires p.counter < Pow16(16) && p.nonce < 0x1_0000_0000 && q.counter < Pow16(16) && q.nonce < 0x1_0000_0000
    requires Plaintext(kind, p) == Plaintext(kind', q)
    ensures kind == kind'
  {
    StartOfBlock(kind, p);
    StartOfBlock(kind', q);
  }

  lemma StartOfBlock(kind: Kind, p: Preimage)
    requires p.counter < Pow16(16) && p.nonce < 0x1_0000_0000
    ensures Plaintext(kind, p)[0] == Template(kind)[0] && Plaintext(kind, p)[3] == Template(kind)[3]
  {
    WriteHexBefore(Template(kind), LastDigit(kind), p.counter, 16, 0);
    WriteHexBefore(Template(kind), LastDigit(kind), p.counter, 16, 3);
  }

  /** The eight words of a digest, as a little-endian machine reads them. */
  function DigestWords(md: seq<Byte>): (hash: seq<Half>)
    requires |md| == 32
    ensures |hash| == 8
  {
    seq(8, w requires 0 <= w < 8 => HalfOf(md[4 * w + 3], md[4 * w + 2], md[4 * w + 1], md[4 * w]))
  }

  function HalfOf(b0: Byte, b1: Byte, b2: Byte, b3: Byte): (h: Half) {
    BitsOf(FromBytes(b0, b1, b2, b3), 32)
  }

  /** The number that four bytes stand for on a little-endian machine. */
  ghost function LittleEndian(md: seq<nat>, at: nat): (n: nat)
    requires at + 4 <= |md|
  {
    md[at] + 0x100 * md[at + 1] + 0x1_0000 * md[at + 2] + 0x100_0000 * md[at + 3]
  }

  /** The number that a word of the digest stands for, and what the tests of compute_full_hash tell about it. */
  lemma WordOfBytes(b0: Byte, b1: Byte, b2: Byte, b3: Byte, h: Half, v: nat)
    requires h == HalfOf(b3, b2, b1, b0) && v == LittleEndian([b0, b1, b2, b3], 0)
    ensures NumberOf(h, 32) == v
    ensures h == {} <==> b0 == b1 == b2 == b3 == 0
    ensures 31 in h <==> b3 >= 128
  {
    Pow2Of32();
    NumberOfBits(v, 32);
    EmptyWord(h, v);
    TopBitOf(h, v);
    FourBytes(b0, b1, b2, b3, v);
  }

  lemma FourBytes(b0: Byte, b1: Byte, b2: Byte, b3: Byte, v: nat)
    requires v == LittleEndian([b0, b1, b2, b3], 0)
    ensures v == 0 <==> b0 == b1 == b2 == b3 == 0
    ensures v >= 0x8000_0000 <==> b3 >= 128
  {
  }

  lemma EmptyWord(h: Half, v: nat)
    requires NumberOf(h, 32) == v
    ensures h == {} <==> v == 0
  {
    NumberOfNothing(32);
    BitsOfNumber(h, 32);
    BitsOfNumber({}, 32);
  }

  lemma TopBitOf(h: Half, v: nat)
    requires NumberOf(h, 32) == v
    ensures 31 in h <==> v >= 0x8000_0000
  {
    HalfRange();
    assert NumberOf(h, 32) == NumberOf(h, 31) + if 31 in h then Pow2(31) else 0;
  }

  lemma HalfRange()
    ensures Pow2(31) == 0x8000_0000
  {
    Pow2Of32();
    assert Pow2(32) == 2 * Pow2(31);
  }

  lemma WordsOfDigest(md: seq<Byte>, w: nat)
    requires |md| == 32 && w < 8
    ensures NumberOf(DigestWords(md)[w], 32) == LittleEndian(md, 4 * w)
  {
    var b0, b1, b2, b3 := md[4 * w], md[4 * w + 1], md[4 * w + 2], md[4 * w + 3];
    WordOfBytes(b0, b1, b2, b3, DigestWords(md)[w], LittleEndian(md, 4 * w));
  }

  /** The bytes of a digest that compute_full_hash accepts. */
  lemma ValidBytes(md: seq<Byte>)
    requires |md| == 32
    ensures IsValid(DigestWords(md)) <==> md[27] < 128 && md[28] == md[29] == md[30] == md[31] == 0
  {
    var hash := DigestWords(md);
    WordOfBytes(md[24], md[25], md[26], md[27], hash[6], LittleEndian(md, 24));
    WordOfBytes(md[28], md[29], md[30], md[31], hash[7], LittleEndian(md, 28));
  }

  /** The digest of the digest of a block. */
  function DoubleDigest(kind: Kind, p: Preimage): (md: seq<Byte>)
    requires p.nonce < 0x1_0000_0000
    ensures |md| == 32
  {
    Digest(Digest(Plaintext(kind, p)))
  }

  /** The double hash of a preimage. */
  function FullHash(kind: Kind, p: Preimage): (hash: seq<Half>)
    requires p.nonce < 0x1_0000_0000
    ensures |hash| == 8
  {
    DigestWords(DoubleDigest(kind, p))
  }

  /** compute_full_hash */
  method ComputeFullHash(kind: Kind, p: Preimage) returns (hash: seq<Half>, valid: bool)
    requires p.counter < Pow16(16) && p.nonce < 0x1_0000_0000
    ensures hash == FullHash(kind, p) && (valid <==> TopBitsZero(hash, 33))
    ensures forall w | 0 <= w < 8 :: NumberOf(hash[w], 32) == LittleEndian(DoubleDigest(kind, p), 4 * w)
    ensures var md := DoubleDigest(kind, p); valid <==> md[27] < 128 && md[28] == md[29] == md[30] == md[31] == 0
  {
    var block := new Byte[80](_ => 0);
    BuildPlaintextBlock(kind, p, block);
    var md := Hash(block[..]);
    md := Hash(md);
    hash := DigestWords(md);
    valid := hash[7] == {} && 31 !in hash[6];
    ValidMeansTopBits(hash);
    ValidBytes(md);
    forall w | 0 <= w < 8
      ensures NumberOf(hash[w], 32) == LittleEndian(md, 4 * w)
    {
      WordsOfDigest(md, w);
    }
  }
}
