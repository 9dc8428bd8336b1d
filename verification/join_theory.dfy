/** What the join of two lists of vectors with a slice consists of. */
module JoinTheory {
  import opened Words
  import opened Numbers
  import opened Linear
  import opened Matrix
  import opened Slices
  import opened Subjoin
  import opened Partition

  /** Vectors that agree on their l >= p top bits have the same partitioning key. */
  lemma MatchesShareKey(x: Word, y: Word, l: nat, p: nat)
    requires p <= l <= 64 && Matches(x, y, l)
    ensures Key(x, p) == Key(y, p)
  {
    MatchesIsSharedTop(x, y, l);
    var a, b := Shr(x, 64 - p), Shr(y, 64 - p);
    forall i | 0 <= i < p
      ensures i in a <==> i in b
    {
      ShrBit(x, 64 - p, i);
      ShrBit(y, 64 - p, i);
      ShrBit(x, 64 - l, i + l - p);
      ShrBit(y, 64 - l, i + l - p);
    }
    NumberOfLow(a, b, p);
  }

  /** The join of the partitions with key i is the part of the join of the lists with key i. */
  lemma PairsOfPartition(t: Triple, A: seq<Word>, B: seq<Word>, l: nat, p: nat, i: nat)
    requires p <= l <= 64
    ensures Pairs(t, WithKey(A, i, p), WithKey(B, i, p), l) == if Key(t.x, p) == i then Pairs(t, A, B, l) else 0
  {
    WithKeyMultiset(A, i, p, t.x);
    WithKeyMultiset(B, i, p, t.y);
    if Matches(t.x, t.y, l) {
      MatchesShareKey(t.x, t.y, l, p);
    }
  }

  lemma JoinBelowStep(all: multiset<Triple>, out: seq<Triple>, A: seq<Word>, B: seq<Word>, l: nat, p: nat, i: nat)
    requires p <= l <= 64 && IsJoin(out, WithKey(A, i, p), WithKey(B, i, p), l)
    requires forall t: Triple :: all[t] == if Key(t.x, p) < i then Pairs(t, A, B, l) else 0
    ensures forall t: Triple :: (all + multiset(out))[t] == if Key(t.x, p) < i + 1 then Pairs(t, A, B, l) else 0
  {
    forall t: Triple
      ensures (all + multiset(out))[t] == if Key(t.x, p) < i + 1 then Pairs(t, A, B, l) else 0
    {
      PairsOfPartition(t, A, B, l, p, i);
    }
  }

  /** The three values of a triple multiplied by a matrix. */
  ghost function Image(t: Triple, M: seq<Word>): (u: Triple)
    requires |M| == 64
  {
    Triple(Gemv(t.x, M), Gemv(t.y, M), Gemv(t.z, M))
  }

  ghost function ImagesOf(ts: seq<Triple>, M: seq<Word>): (us: seq<Triple>)
    requires |M| == 64
    ensures |us| == |ts| && forall i | 0 <= i < |ts| :: us[i] == Image(ts[i], M)
  {
    seq(|ts|, i requires 0 <= i < |ts| => Image(ts[i], M))
  }

  lemma ImageInverse(t: Triple, M: seq<Word>, Minv: seq<Word>)
    requires Inverses(M, Minv)
    ensures Image(Image(t, M), Minv) == t
  {
    GemvInverse(t.x, M, Minv);
    GemvInverse(t.y, M, Minv);
    GemvInverse(t.z, M, Minv);
  }

  /** Multiplying by an invertible matrix keeps multiplicities. */
  lemma {:induction false} ImagesOfCount(ts: seq<Triple>, M: seq<Word>, Minv: seq<Word>, u: Triple)
    requires Inverses(M, Minv)
    ensures multiset(ImagesOf(ts, Minv))[u] == multiset(ts)[Image(u, M)]
  {
    if ts != [] {
      var n := |ts| - 1;
      ImagesOfCount(ts[..n], M, Minv, u);
      assert ts == ts[..n] + [ts[n]];
      assert ImagesOf(ts, Minv) == ImagesOf(ts[..n], Minv) + [Image(ts[n], Minv)];
      ImageInverse(u, M, Minv);
      ImageInverse(ts[n], Minv, M);
    }
  }

  lemma {:induction false} ImagesCount(vs: seq<Word>, M: seq<Word>, Minv: seq<Word>, x: Word)
    requires Inverses(M, Minv)
    ensures multiset(Images(vs, M))[Gemv(x, M)] == multiset(vs)[x]
  {
    if vs != [] {
      var n := |vs| - 1;
      ImagesCount(vs[..n], M, Minv, x);
      assert vs == vs[..n] + [vs[n]];
      assert Images(vs, M) == Images(vs[..n], M) + [Gemv(vs[n], M)];
      GemvInverse(x, M, Minv);
      GemvInverse(vs[n], M, Minv);
    }
  }

  /** How often the triple u must be reported for a slice: once for each pair of vectors of the lists that
      add up to a vector of the slice. */
  ghost function SliceHits(u: Triple, L0: seq<Word>, L1: seq<Word>, s: Slice): (n: nat) {
    if u.x != {} && u.z == Xor(u.x, u.y) && u.z in Originals(s) then multiset(L0)[u.x] * multiset(L1)[u.y] else 0
  }

  lemma GemvZero(M: seq<Word>)
    requires |M| == 64
    ensures Gemv({}, M) == {}
  {
    ComboDisjoint(M, {}, 64);
  }

  /** Being the sum of two vectors, or zero, does not depend on the basis. */
  lemma SumsInBasis(u: Triple, M: seq<Word>, Minv: seq<Word>)
    requires Inverses(M, Minv)
    ensures Gemv(u.z, M) == Xor(Gemv(u.x, M), Gemv(u.y, M)) <==> u.z == Xor(u.x, u.y)
    ensures Gemv(u.x, M) == {} <==> u.x == {}
    ensures Gemv(u.z, M) == {} <==> u.z == {}
  {
    GemvXor(u.x, u.y, M);
    GemvInverse(u.z, M, Minv);
    GemvInverse(u.x, M, Minv);
    GemvInverse(Xor(u.x, u.y), M, Minv);
    GemvZero(M);
    GemvZero(Minv);
  }

  lemma InSlice(z: Word, s: Slice)
    requires Inverses(s.M, s.Minv)
    ensures z in Originals(s) <==> Gemv(z, s.M) in s.CM
  {
    if z in Originals(s) {
      var i :| 0 <= i < |s.CM| && Originals(s)[i] == z;
      GemvInverse(s.CM[i], s.Minv, s.M);
    }
    if Gemv(z, s.M) in s.CM {
      var i :| 0 <= i < |s.CM| && s.CM[i] == Gemv(z, s.M);
      GemvInverse(z, s.M, s.Minv);
      assert Originals(s)[i] == z;
    }
  }

  /** A pair whose sum is in the slice agrees on the l top bits. */
  lemma SliceMatches(u: Triple, s: Slice, l: nat)
    requires GoodSlice(s, l) && u.z == Xor(u.x, u.y) && Gemv(u.z, s.M) in s.CM
    ensures Matches(Gemv(u.x, s.M), Gemv(u.y, s.M), s.l)
  {
    var c := Gemv(u.z, s.M);
    GemvXor(u.x, u.y, s.M);
    var k := 64 - s.l;
    var top := c * LeftMask(s.l);
    assert top == {};
    forall i: nat
      ensures i !in Shr(c, k)
    {
      ShrBit(c, k, i);
      assert i + k !in top;
    }
    assert Shr(c, k) == {};
  }

  /** The hits of a slice, counted in its own basis: the pairs whose sum is looked up successfully. */
  lemma HitsInBasis(u: Triple, L0: seq<Word>, L1: seq<Word>, s: Slice, l: nat)
    requires GoodSlice(s, l) && u.z != {}
    ensures var v := Image(u, s.M);
            SliceHits(u, L0, L1, s) == if v.z in s.CM then Pairs(v, Images(L0, s.M), Images(L1, s.M), s.l) else 0
  {
    SumsInBasis(u, s.M, s.Minv);
    InSlice(u.z, s);
    ImagesCount(L0, s.M, s.Minv, u.x);
    ImagesCount(L1, s.M, s.Minv, u.y);
    if u.z == Xor(u.x, u.y) && Gemv(u.z, s.M) in s.CM {
      SliceMatches(u, s, l);
    }
  }
}
