/** Slices, their layout in a slice file, and the conditions that the slice checker tests. */
module Slices {
  import opened Words
  import opened Numbers
  import opened Linear
  import opened Matrix

  /** struct slice_t. CM lists the vectors of the slice multiplied by M; their l top bits are zero. */
  datatype Slice = Slice(M: seq<Word>, Minv: seq<Word>, l: nat, CM: seq<Word>)

  const HEADER: nat := 130

  ghost predicate Fits(s: Slice) {
    |s.M| == |s.Minv| == 64 && s.l < TWO_64 && |s.CM| < TWO_64
  }

  /** The words of a slice in a file: M, Minv, n, l and then the n vectors. */
  ghost function SliceWords(s: Slice): (ws: seq<Word>)
    requires Fits(s)
    ensures |ws| == HEADER + |s.CM|
  {
    s.M + s.Minv + [WordOf(|s.CM|), WordOf(s.l)] + s.CM
  }

  ghost predicate AllFit(slices: seq<Slice>) {
    forall s | s in slices :: Fits(s)
  }

  /** A slice file is the concatenation of its slices. */
  ghost function FileOf(slices: seq<Slice>): (ws: seq<Word>)
    requires AllFit(slices)
  {
    if slices == [] then [] else SliceWords(slices[0]) + FileOf(slices[1..])
  }

  lemma FirstSlice(first: Slice, rest: seq<Slice>)
    requires Fits(first) && AllFit(rest)
    ensures AllFit([first] + rest) && FileOf([first] + rest) == SliceWords(first) + FileOf(rest)
  {
    assert ([first] + rest)[1..] == rest;
  }

  lemma FirstAndRest(slices: seq<Slice>, s: Slice)
    requires slices != []
    ensures slices == [slices[0]] + slices[1..] && slices + [s] == [slices[0]] + (slices[1..] + [s])
  {
  }

  lemma {:induction false} FileOfAppend(slices: seq<Slice>, s: Slice)
    requires AllFit(slices) && Fits(s)
    ensures AllFit(slices + [s]) && FileOf(slices + [s]) == FileOf(slices) + SliceWords(s)
  {
    if slices == [] {
      FirstSlice(s, []);
      assert [s] + [] == slices + [s];
    } else {
      FileOfAppend(slices[1..], s);
      FirstAndRest(slices, s);
      FirstSlice(slices[0], slices[1..] + [s]);
    }
  }

  /** LEFT_MASK(l): the l top bits of a word. */
  function LeftMask(l: nat): (m: Word)
    ensures forall i :: i in m <==> 0 <= i < 64 && i + l >= 64
  {
    set i {:trigger Pow2(i)} | 0 <= i < 64 && i + l >= 64
  }

  lemma {:induction false} LowBitsOfLeftMask(l: nat, k: nat)
    requires 1 <= l <= 64 && k <= 64
    ensures NumberOf(LeftMask(l), k) == if k <= 64 - l then 0 else Pow2(k) - Pow2(64 - l)
  {
    if k > 0 {
      LowBitsOfLeftMask(l, k - 1);
    }
  }

  /** ~((1ull << (64 - l)) - 1), the complement of x being 2^64 - 1 - x. */
  lemma LeftMaskIsComplement(l: nat)
    requires 1 <= l <= 64
    ensures NumberOf(LeftMask(l), 64) == TWO_64 - 1 - (Pow2(64 - l) - 1)
  {
    SixtyFourBits();
    LowBitsOfLeftMask(l, 64);
  }

  /** The vectors that a slice stands for. */
  ghost function Originals(s: Slice): (vs: seq<Word>) {
    if |s.Minv| == 64 then Images(s.CM, s.Minv) else []
  }

  ghost function AllOriginals(slices: seq<Slice>): (vs: seq<Word>) {
    if slices == [] then [] else
    var n := |slices| - 1;
    AllOriginals(slices[..n]) + Originals(slices[n])
  }

  lemma AllOriginalsAppend(slices: seq<Slice>, s: Slice)
    ensures AllOriginals(slices + [s]) == AllOriginals(slices) + Originals(s)
  {
    assert (slices + [s])[..|slices|] == slices;
  }

  /** What the checker asks of one slice: mutually inverse matrices, enough equations, and vectors
      whose l top bits are zero. */
  ghost predicate GoodSlice(s: Slice, l: nat) {
    && |s.M| == |s.Minv| == 64
    && l <= s.l <= 64
    && Inverses(s.M, s.Minv)
    && forall i | 0 <= i < |s.CM| :: s.CM[i] * LeftMask(s.l) == {}
  }

  /** The acceptance conditions of slice_checker: good slices, which hold exactly the vectors L. */
  ghost predicate Accepted(slices: seq<Slice>, L: seq<Word>, l: nat) {
    && (forall s | s in slices :: GoodSlice(s, l))
    && multiset(AllOriginals(slices)) == multiset(L)
  }

  lemma OriginalsOfImages(vs: seq<Word>, M: seq<Word>, Minv: seq<Word>)
    requires Inverses(M, Minv)
    ensures Images(Images(vs, M), Minv) == vs
  {
    forall i | 0 <= i < |vs|
      ensures Gemv(Gemv(vs[i], M), Minv) == vs[i]
    {
      GemvInverse(vs[i], M, Minv);
    }
  }

  /** Bit c of x * M is the inner product of x with column c. */
  lemma GemvBit(M: seq<Word>, x: Word, c: nat, column: Word)
    requires |M| == 64 && forall r | 0 <= r < 64 :: c in M[r] <==> r in column
    ensures c in Gemv(x, M) <==> Dot(column, x)
  {
    ComboBit(M, x, 64, c, column);
  }

  /** The file holds the slice s at position `at`. */
  ghost predicate SliceAt(file: seq<Word>, at: nat, s: Slice) {
    Fits(s) && at + HEADER + |s.CM| <= |file| && file[at..at + HEADER + |s.CM|] == SliceWords(s)
  }

  lemma SliceFields(file: seq<Word>, at: nat, s: Slice)
    requires SliceAt(file, at, s)
    ensures file[at..at + 64] == s.M && file[at + 64..at + 128] == s.Minv
    ensures NumberOf(file[at + 128], 64) == |s.CM| && NumberOf(file[at + 129], 64) == s.l
    ensures file[at + HEADER..at + HEADER + |s.CM|] == s.CM
  {
    var ws := file[at..at + HEADER + |s.CM|];
    assert ws == s.M + (s.Minv + ([WordOf(|s.CM|), WordOf(s.l)] + s.CM));
    assert forall i | 0 <= i < |ws| :: ws[i] == file[at + i];
    assert file[at..at + 64] == ws[..64] == s.M;
    assert file[at + 64..at + 128] == ws[64..128] == s.Minv;
    assert file[at + 128] == ws[128] && file[at + 129] == ws[129];
    assert file[at + HEADER..at + HEADER + |s.CM|] == ws[HEADER..] == s.CM;
    NumberOfWord(|s.CM|);
    NumberOfWord(s.l);
  }

  /** Where the next slice starts. */
  method After(file: array<Word>, at: nat, ghost s: Slice) returns (at': nat)
    requires SliceAt(file[..], at, s)
    ensures at' == at + HEADER + |s.CM|
  {
    SliceFields(file[..], at, s);
    at' := at + HEADER + NumberOf(file[at + 128], 64);
  }

  /** What is left of the file, at position `at`, are the slices from the i-th on. */
  ghost predicate Left(file: seq<Word>, at: nat, slices: seq<Slice>, i: nat)
    requires AllFit(slices)
  {
    i <= |slices| && at <= |file| && file[at..] == FileOf(slices[i..])
  }

  /** The next slice of a file, and what follows it. */
  lemma NextSlice(file: seq<Word>, at: nat, slices: seq<Slice>, i: nat)
    requires AllFit(slices) && Left(file, at, slices, i)
    ensures at < |file| <==> i < |slices|
    ensures i < |slices| ==> SliceAt(file, at, slices[i]) && Left(file, at + HEADER + |slices[i].CM|, slices, i + 1)
  {
    if i < |slices| {
      var s := slices[i];
      assert slices[i..][0] == s && slices[i..][1..] == slices[i + 1..];
      var rest := file[at..];
      var n := HEADER + |s.CM|;
      assert rest == SliceWords(s) + FileOf(slices[i + 1..]);
      assert file[at..at + n] == rest[..n];
      assert file[at + n..] == rest[n..];
    }
  }

  /** The start and the end of the file. */
  lemma WholeFile(file: seq<Word>, at: nat, slices: seq<Slice>, i: nat)
    requires AllFit(slices)
    ensures file == FileOf(slices) ==> Left(file, 0, slices, 0)
    ensures Left(file, at, slices, i) && at == |file| ==> i == |slices| && slices[..i] == slices
    ensures slices[..0] == []
  {
    assert slices[0..] == slices && file[0..] == file;
    if Left(file, at, slices, i) {
      NextSlice(file, at, slices, i);
    }
  }
}
