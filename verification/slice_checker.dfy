/** The slice checker: it accepts a slice file exactly when its slices are good and hold the vectors of a list. */
module SliceChecker {
  import opened Words
  import opened Numbers
  import opened Matrix
  import opened Slices

  /** The number by which words are compared. */
  function Value(x: Word): (n: nat) {
    NumberOf(x, 64)
  }

  ghost predicate Injective(value: Word -> nat) {
    forall x, y :: value(x) == value(y) ==> x == y
  }

  lemma ValueIsInjective()
    ensures Injective(Value)
  {
    forall x: Word
      ensures BitsOf(Value(x), 64) == x
    {
      BitsOfNumber(x, 64);
    }
  }

  ghost predicate Ordered(value: Word -> nat, L: seq<Word>) {
    forall i, j | 0 <= i < j < |L| :: NotAbove(value, L, i, j)
  }

  ghost predicate NotAbove(value: Word -> nat, L: seq<Word>, i: nat, j: nat)
    requires i < |L| && j < |L|
  {
    value(L[i]) <= value(L[j])
  }

  /** binary_search, in the `size` words from position `lo` on. */
  predicate BinarySearch(value: Word -> nat, x: Word, L: seq<Word>, lo: nat, size: nat)
    requires size >= 1 && lo + size <= |L|
    decreases size
  {
    var mid := size / 2;
    if x == L[lo + mid] then true
    else if size == 1 then false
    else if value(x) < value(L[lo + mid]) then BinarySearch(value, x, L, lo, mid)
    else BinarySearch(value, x, L, lo + mid, size - mid)
  }

  ghost predicate OccursIn(x: Word, L: seq<Word>, lo: nat, hi: nat)
    requires hi <= |L|
  {
    exists i :: lo <= i < hi && L[i] == x
  }

  /** In a sorted list, the search finds a word if and only if it is there. */
  lemma InFirstHalf(value: Word -> nat, x: Word, L: seq<Word>, lo: nat, mid: nat, hi: nat)
    requires lo <= mid < hi <= |L| && Ordered(value, L) && value(x) < value(L[mid])
    ensures OccursIn(x, L, lo, hi) <==> OccursIn(x, L, lo, mid)
  {
    forall i | mid < i < hi
      ensures L[i] != x
    {
      assert NotAbove(value, L, mid, i);
    }
  }

  lemma InSecondHalf(value: Word -> nat, x: Word, L: seq<Word>, lo: nat, mid: nat, hi: nat)
    requires lo <= mid < hi <= |L| && Ordered(value, L) && Injective(value)
    requires value(x) >= value(L[mid]) && x != L[mid]
    ensures OccursIn(x, L, lo, hi) <==> OccursIn(x, L, mid, hi)
  {
    forall i | lo <= i < mid
      ensures L[i] != x
    {
      assert NotAbove(value, L, i, mid);
    }
  }

  lemma SearchStep(value: Word -> nat, x: Word, L: seq<Word>, lo: nat, size: nat, mid: nat)
    requires size > 1 && mid == size / 2 && lo + size <= |L| && x != L[lo + mid]
    ensures BinarySearch(value, x, L, lo, size) ==
            if value(x) < value(L[lo + mid]) then BinarySearch(value, x, L, lo, mid)
            else BinarySearch(value, x, L, lo + mid, size - mid)
  {
  }

  lemma AtMiddle(value: Word -> nat, x: Word, L: seq<Word>, lo: nat, size: nat, mid: nat, hi: nat)
    requires size >= 1 && mid == size / 2 && lo + size == hi <= |L| && (x == L[lo + mid] || size == 1)
    ensures BinarySearch(value, x, L, lo, size) <==> OccursIn(x, L, lo, hi)
  {
    if x == L[lo + mid] {
      assert OccursIn(x, L, lo, hi);
    }
  }

  lemma {:induction false} SearchDecides(value: Word -> nat, x: Word, L: seq<Word>, lo: nat, size: nat, hi: nat)
    requires size >= 1 && lo + size == hi <= |L| && Ordered(value, L) && Injective(value)
    ensures BinarySearch(value, x, L, lo, size) <==> OccursIn(x, L, lo, hi)
    decreases size
  {
    var mid := size / 2;
    if x == L[lo + mid] || size == 1 {
      AtMiddle(value, x, L, lo, size, mid, hi);
    } else {
      SearchStep(value, x, L, lo, size, mid);
      if value(x) < value(L[lo + mid]) {
        SearchDecides(value, x, L, lo, mid, lo + mid);
        InFirstHalf(value, x, L, lo, lo + mid, hi);
      } else {
        SearchDecides(value, x, L, lo + mid, size - mid, hi);
        InSecondHalf(value, x, L, lo, lo + mid, hi);
      }
    }
  }

  /** qsort: any function that sorts. */
  ghost predicate Sorts(sort: seq<Word> -> seq<Word>) {
    forall s: seq<Word> :: Ordered(Value, sort(s)) && multiset(sort(s)) == multiset(s)
  }

  lemma LargestIsLast(value: Word -> nat, a: seq<Word>, x: Word)
    requires Ordered(value, a) && x in multiset(a)
    ensures a != [] && value(x) <= value(a[|a| - 1])
  {
    var i :| 0 <= i < |a| && a[i] == x;
    assert i < |a| - 1 ==> NotAbove(value, a, i, |a| - 1);
  }

  lemma PrefixOrdered(value: Word -> nat, a: seq<Word>, n: nat)
    requires Ordered(value, a) && n <= |a|
    ensures Ordered(value, a[..n])
  {
    forall i, j | 0 <= i < j < n
      ensures NotAbove(value, a[..n], i, j)
    {
      assert NotAbove(value, a, i, j);
    }
  }

  lemma WithoutLast(a: seq<Word>)
    requires a != []
    ensures multiset(a[..|a| - 1]) == multiset(a) - multiset{a[|a| - 1]}
    ensures a == a[..|a| - 1] + [a[|a| - 1]]
  {
    assert a == a[..|a| - 1] + [a[|a| - 1]];
  }

  /** Two sorted arrangements of the same words are equal. */
  lemma {:induction false} SortedUnique(value: Word -> nat, a: seq<Word>, b: seq<Word>)
    requires Ordered(value, a) && Ordered(value, b) && multiset(a) == multiset(b) && Injective(value)
    ensures a == b
  {
    assert |multiset(a)| == |a| && |multiset(b)| == |b|;
    if a != [] {
      var n := |a| - 1;
      LargestIsLast(value, b, a[n]);
      LargestIsLast(value, a, b[n]);
      assert value(a[n]) == value(b[n]);
      WithoutLast(a);
      WithoutLast(b);
      PrefixOrdered(value, a, n);
      PrefixOrdered(value, b, n);
      SortedUnique(value, a[..n], b[..n]);
    }
  }

  /** The assertions on row k of the two matrices. */
  method CheckRow(file: array<Word>, at: nat, k: nat, ghost s: Slice) returns (ok: bool)
    requires k < 64 && at + 128 <= file.Length && file[at..at + 64] == s.M && file[at + 64..at + 128] == s.Minv
    ensures ok <==> Gemv(s.M[k], s.Minv) == {k} && Gemv(s.Minv[k], s.M) == {k}
  {
    assert file[at + k] == file[at..at + 64][k] && file[at + 64 + k] == file[at + 64..at + 128][k];
    var x := NaiveGemv(file[at + k], file, at + 64);
    var y := NaiveGemv(file[at + 64 + k], file, at);
    ok := x == {k} && y == {k};
  }

  /** The first two loops of the checker: the matrices are inverse to each other. */
  method CheckMatrices(file: array<Word>, at: nat, ghost s: Slice) returns (ok: bool)
    requires SliceAt(file[..], at, s)
    ensures ok <==> Inverses(s.M, s.Minv)
  {
    SliceFields(file[..], at, s);
    assert file[at..at + 64] == s.M && file[at + 64..at + 128] == s.Minv;
    for k := 0 to 64
      invariant forall c | 0 <= c < k :: Gemv(s.M[c], s.Minv) == {c} && Gemv(s.Minv[c], s.M) == {c}
    {
      var inverse := CheckRow(file, at, k, s);
      if !inverse {
        return false;
      }
    }
    return true;
  }

  /** What the checker demands of the vectors of a slice. */
  ghost predicate VectorsOk(s: Slice, L: seq<Word>)
    requires |s.Minv| == 64
  {
    forall k | 0 <= k < |s.CM| :: VectorOk(s, L, k)
  }

  ghost predicate VectorOk(s: Slice, L: seq<Word>, k: nat)
    requires |s.Minv| == 64 && k < |s.CM|
  {
    s.CM[k] * LeftMask(s.l) == {} && Gemv(s.CM[k], s.Minv) in L
  }

  /** The loop over the vectors: those that are found in the list are collected. */
  lemma SearchFinds(x: Word, L: seq<Word>)
    requires L != [] && Ordered(Value, L)
    ensures BinarySearch(Value, x, L, 0, |L|) <==> x in L
  {
    ValueIsInjective();
    SearchDecides(Value, x, L, 0, |L|, |L|);
  }

  method CheckVectors(file: array<Word>, at: nat, L: seq<Word>, M: seq<Word>, ghost s: Slice)
    returns (ok: bool, M': seq<Word>)
    requires SliceAt(file[..], at, s) && Ordered(Value, L) && (s.CM != [] ==> L != [])
    ensures ok <==> VectorsOk(s, L)
    ensures ok ==> M' == M + Originals(s)
  {
    SliceFields(file[..], at, s);
    var n, mask := NumberOf(file[at + 128], 64), LeftMask(NumberOf(file[at + 129], 64));
    M' := M;
    assert file[at + 64..at + 128] == s.Minv && file[at + HEADER..at + HEADER + n] == s.CM;
    for k := 0 to n
      invariant M' == M + Originals(s)[..k] && forall c | 0 <= c < k :: VectorOk(s, L, c)
    {
      assert file[at + HEADER + k] == file[at + HEADER..at + HEADER + n][k];
      if file[at + HEADER + k] * mask != {} {
        assert !VectorOk(s, L, k);
        return false, M';
      }
      var z := NaiveGemv(file[at + HEADER + k], file, at + 64);
      SearchFinds(z, L);
      if !BinarySearch(Value, z, L, 0, |L|) {
        assert !VectorOk(s, L, k);
        return false, M';
      }
      M' := M' + [z];
    }
    assert Originals(s)[..n] == Originals(s);
    return true, M';
  }

  /** The conditions on one slice. */
  ghost predicate SliceOk(s: Slice, L: seq<Word>, l: nat)
    requires |s.Minv| == 64
  {
    l <= s.l && Inverses(s.M, s.Minv) && VectorsOk(s, L)
  }

  lemma SliceOkMeans(s: Slice, L: seq<Word>, l: nat)
    requires Fits(s) && s.l <= 64
    ensures SliceOk(s, L, l) <==> GoodSlice(s, l) && forall k | 0 <= k < |s.CM| :: Originals(s)[k] in L
  {
    assert forall k | 0 <= k < |s.CM| :: Originals(s)[k] == Gemv(s.CM[k], s.Minv);
    if GoodSlice(s, l) && forall k | 0 <= k < |s.CM| :: Originals(s)[k] in L {
      forall k | 0 <= k < |s.CM|
        ensures VectorOk(s, L, k)
      {
        assert Originals(s)[k] in L;
      }
    }
    if SliceOk(s, L, l) {
      forall k | 0 <= k < |s.CM|
        ensures s.CM[k] * LeftMask(s.l) == {} && Originals(s)[k] in L
      {
        assert VectorOk(s, L, k);
      }
    }
  }

  method CheckSlice(file: array<Word>, at: nat, L: seq<Word>, M: seq<Word>, l: nat, ghost s: Slice)
    returns (ok: bool, M': seq<Word>)
    requires SliceAt(file[..], at, s) && Ordered(Value, L) && (s.CM != [] ==> L != [])
    ensures ok <==> SliceOk(s, L, l)
    ensures ok ==> M' == M + Originals(s)
  {
    SliceFields(file[..], at, s);
    M' := M;
    ok := l <= NumberOf(file[at + 129], 64);
    if ok {
      ok := CheckMatrices(file, at, s);
    }
    if ok {
      ok, M' := CheckVectors(file, at, L, M, s);
    }
  }

  /** What holds after the first i slices have been accepted. */
  ghost predicate Passed(slices: seq<Slice>, i: nat, L: seq<Word>, l: nat, M: seq<Word>) {
    i <= |slices| && M == AllOriginals(slices[..i]) && forall k | 0 <= k < i :: GoodSlice(slices[k], l)
  }

  lemma PassedNext(slices: seq<Slice>, i: nat, L: seq<Word>, l: nat, M: seq<Word>)
    requires Passed(slices, i, L, l, M) && i < |slices| && Fits(slices[i]) && slices[i].l <= 64
      && SliceOk(slices[i], L, l)
    ensures Passed(slices, i + 1, L, l, M + Originals(slices[i]))
  {
    SliceOkMeans(slices[i], L, l);
    assert slices[..i + 1] == slices[..i] + [slices[i]];
    AllOriginalsAppend(slices[..i], slices[i]);
  }

  lemma {:induction false} SliceIsPart(slices: seq<Slice>, i: nat, x: Word)
    requires i < |slices| && x in Originals(slices[i])
    ensures x in AllOriginals(slices)
  {
    var n := |slices| - 1;
    if i < n {
      SliceIsPart(slices[..n], i, x);
    }
  }

  /** A slice that is turned down shows that the file is not acceptable. */
  lemma Rejected(slices: seq<Slice>, i: nat, L: seq<Word>, sorted: seq<Word>, l: nat)
    requires i < |slices| && Fits(slices[i]) && slices[i].l <= 64 && !SliceOk(slices[i], sorted, l)
      && multiset(sorted) == multiset(L)
    ensures !Accepted(slices, L, l)
  {
    SliceOkMeans(slices[i], sorted, l);
    if GoodSlice(slices[i], l) {
      var k :| 0 <= k < |slices[i].CM| && Originals(slices[i])[k] !in sorted;
      var x := Originals(slices[i])[k];
      SliceIsPart(slices, i, x);
      assert x in multiset(AllOriginals(slices)) && x !in multiset(sorted);
    }
  }

  /** The comparison at the end. */
  lemma SameVectors(slices: seq<Slice>, M: seq<Word>, L: seq<Word>, l: nat, sort: seq<Word> -> seq<Word>)
    requires Sorts(sort) && Passed(slices, |slices|, L, l, M)
    ensures |M| == |L| && sort(M) == sort(L) <==> Accepted(slices, L, l)
  {
    assert slices[..|slices|] == slices;
    if multiset(M) == multiset(L) {
      ValueIsInjective();
      SortedUnique(Value, sort(M), sort(L));
      assert |multiset(M)| == |M| && |multiset(L)| == |L|;
    }
    forall s | s in slices
      ensures GoodSlice(s, l)
    {
      var k :| 0 <= k < |slices| && slices[k] == s;
    }
  }

  /** The checker. The shift in LEFT_MASK is defined for slices with 1 <= l <= 64. */
  method Check(L: seq<Word>, file: array<Word>, l: nat, sort: seq<Word> -> seq<Word>, ghost slices: seq<Slice>)
    returns (ok: bool)
    requires Sorts(sort) && AllFit(slices) && file[..] == FileOf(slices)
    requires forall i | 0 <= i < |slices| :: 1 <= slices[i].l <= 64 && (slices[i].CM != [] ==> L != [])
    ensures ok <==> Accepted(slices, L, l)
  {
    var sorted := sort(L);
    assert |multiset(sorted)| == |sorted| && |multiset(L)| == |L|;
    var M, at := [], 0;
    ghost var i, words := 0, file[..];
    WholeFile(words, 0, slices, 0);
    while at < file.Length
      invariant words == file[..] && Left(words, at, slices, i) && Passed(slices, i, sorted, l, M)
      decreases file.Length - at
    {
      ok, M, at := CheckNext(file, at, sorted, M, l, i, slices, words);
      if !ok {
        Rejected(slices, i, L, sorted, l);
        return;
      }
      i := i + 1;
    }
    WholeFile(words, at, slices, i);
    SameVectors(slices, M, L, l, sort);
    ok := |M| == |L| && sort(M) == sorted;
  }

  /** The body of the main loop. */
  method CheckNext(file: array<Word>, at: nat, L: seq<Word>, M: seq<Word>, l: nat, ghost i: nat,
                   ghost slices: seq<Slice>,
                   ghost words: seq<Word>)
    returns (ok: bool, M': seq<Word>, at': nat)
    requires Ordered(Value, L) && AllFit(slices) && words == file[..] && at < file.Length
    requires Left(words, at, slices, i) && Passed(slices, i, L, l, M)
    requires forall i | 0 <= i < |slices| :: 1 <= slices[i].l <= 64 && (slices[i].CM != [] ==> L != [])
    ensures i < |slices| && Fits(slices[i]) && (ok <==> SliceOk(slices[i], L, l))
    ensures ok ==> at < at' <= file.Length && Left(words, at', slices, i + 1) && Passed(slices, i + 1, L, l, M')
  {
    NextSlice(words, at, slices, i);
    ok, M' := CheckSlice(file, at, L, M, l, slices[i]);
    at' := at;
    if ok {
      PassedNext(slices, i, L, l, AllOriginals(slices[..i]));
      at' := After(file, at, slices[i]);
    }
  }
}
