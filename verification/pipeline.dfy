/** The slicer and the join together: which triples of the three lists are found. */
module Pipeline {
  import opened Words
  import opened Numbers
  import opened Basis
  import opened Matrix
  import opened ZeroLookup
  import opened Slices
  import opened Subjoin
  import opened Joux
  import opened Hasher

  /** The number of slices that stand for z. */
  ghost function SlicesWith(slices: seq<Slice>, z: Word): (n: nat) {
    if slices == [] then 0 else
    var k := |slices| - 1;
    SlicesWith(slices[..k], z) + if z in Originals(slices[k]) then 1 else 0
  }

  /** The number of ways of choosing the first two values of a triple that adds up to zero. */
  ghost function Ways(u: Triple, L0: seq<Word>, L1: seq<Word>): (n: nat) {
    if u.x != {} && u.z == Xor(u.x, u.y) then multiset(L0)[u.x] * multiset(L1)[u.y] else 0
  }

  lemma OneMore(a: nat, b: nat)
    ensures a * (b + 1) == a * b + a
  {
  }

  /** A triple is found once for each way of choosing its first two values, in each slice that holds the third. */
  lemma {:induction false} HitsPerSlice(u: Triple, L0: seq<Word>, L1: seq<Word>, slices: seq<Slice>)
    ensures TotalHits(u, L0, L1, slices) == Ways(u, L0, L1) * SlicesWith(slices, u.z)
  {
    if slices != [] {
      var k := |slices| - 1;
      HitsPerSlice(u, L0, L1, slices[..k]);
      OneMore(Ways(u, L0, L1), SlicesWith(slices[..k], u.z));
    }
  }

  lemma {:induction false} SlicesWithMembers(slices: seq<Slice>, z: Word)
    ensures SlicesWith(slices, z) <= multiset(AllOriginals(slices))[z]
    ensures SlicesWith(slices, z) > 0 <==> z in AllOriginals(slices)
  {
    if slices != [] {
      var k := |slices| - 1;
      SlicesWithMembers(slices[..k], z);
      var older: seq<Word>, newer: seq<Word> := AllOriginals(slices[..k]), Originals(slices[k]);
      assert multiset(older + newer)[z] == multiset(older)[z] + multiset(newer)[z];
      assert z in newer <==> z in multiset(newer);
    }
  }

  lemma AcceptedMembers(slices: seq<Slice>, C: seq<Word>, l: nat, z: Word)
    requires Accepted(slices, C, l)
    ensures SlicesWith(slices, z) <= multiset(C)[z] && (SlicesWith(slices, z) > 0 <==> z in C)
  {
    SlicesWithMembers(slices, z);
    assert z in C <==> z in multiset(C);
    assert z in AllOriginals(slices) <==> z in multiset(AllOriginals(slices));
  }

  lemma ProductPositive(a: nat, b: nat, c: nat)
    ensures a * b * c > 0 <==> a > 0 && b > 0 && c > 0
  {
    if a > 0 && b > 0 {
      assert a * b > 0;
    }
  }

  /** What the join of two lists with the slices of a third one finds, for every triple whose third value is not zero:
      exactly the triples that add up to zero, except that a zero in the first list is skipped. */
  lemma FoundIffInLists(u: Triple, sols: seq<Triple>, L0: seq<Word>, L1: seq<Word>, C: seq<Word>, slices: seq<Slice>,
                        l: nat)
    requires Accepted(slices, C, l) && AllReported(sols, L0, L1, slices) && u.z != {}
    ensures u in sols <==> u.x in L0 && u.y in L1 && u.z in C && u.z == Xor(u.x, u.y) && u.x != {}
  {
    HitsPerSlice(u, L0, L1, slices);
    AcceptedMembers(slices, C, l, u.z);
    ProductPositive(Ways(u, L0, L1), SlicesWith(slices, u.z), 1);
    ProductPositive(multiset(L0)[u.x], multiset(L1)[u.y], 1);
    assert u in sols <==> u in multiset(sols);
    assert u.x in L0 <==> u.x in multiset(L0);
    assert u.y in L1 <==> u.y in multiset(L1);
  }

  /** The table of some slice answers that it holds zero. */
  ghost predicate SomeFindsZero(slices: seq<Slice>) {
    exists s :: s in slices && FindsZero(s.CM)
  }

  lemma {:induction false} ZeroTablesPositive(slices: seq<Slice>)
    ensures ZeroTables(slices) > 0 <==> SomeFindsZero(slices)
  {
    if slices != [] {
      var k := |slices| - 1;
      ZeroTablesPositive(slices[..k]);
      assert slices == slices[..k] + [slices[k]];
    }
  }

  /** A triple with the sum zero is found if and only if the table of some slice answers that it holds zero, and then
      for every value that the two lists share. */
  lemma ZeroSums(u: Triple, sols: seq<Triple>, L0: seq<Word>, L1: seq<Word>, slices: seq<Slice>)
    requires AllReported(sols, L0, L1, slices) && u.z == {}
    ensures u in sols <==> SomeFindsZero(slices) && u.x == u.y && u.x != {} && u.x in L0 && u.y in L1
  {
    var zeros, n := ZeroTables(slices), ZeroHits(u, L0, L1);
    ZeroTablesPositive(slices);
    assert multiset(sols)[u] == zeros * n;
    ProductPositive(zeros, n, 1);
    ProductPositive(multiset(L0)[u.x], multiset(L1)[u.y], 1);
    assert u in sols <==> u in multiset(sols);
    assert u.x in L0 <==> u.x in multiset(L0);
    assert u.y in L1 <==> u.y in multiset(L1);
  }

  /** A slice of vectors in the basis they come in. */
  function PlainSlice(l: nat, vs: seq<Word>): (s: Slice) {
    Slice(Identity(), Identity(), l, vs)
  }

  lemma GemvIdentity(x: Word)
    ensures Gemv(x, Identity()) == x
  {
    ComboOfUnits(Identity(), x, 64);
    assert (set i | i in x && i < 64) == x;
  }

  lemma IdentityInverse()
    ensures Inverses(Identity(), Identity())
  {
    forall k: nat | k < 64
      ensures Gemv({k}, Identity()) == {k}
    {
      GemvIdentity({k});
    }
  }

  lemma PlainOriginals(l: nat, vs: seq<Word>)
    ensures Originals(PlainSlice(l, vs)) == vs
  {
    forall i | 0 <= i < |vs|
      ensures Gemv(vs[i], Identity()) == vs[i]
    {
      GemvIdentity(vs[i]);
    }
  }

  lemma OneSlice(s: Slice)
    ensures AllOriginals([s]) == Originals(s)
  {
    assert [s][..0] == [];
  }

  lemma PlainSliceIsGood(l: nat, vs: seq<Word>)
    requires l <= 64 && forall i | 0 <= i < |vs| :: vs[i] * LeftMask(l) == {}
    ensures Accepted([PlainSlice(l, vs)], vs, l)
  {
    IdentityInverse();
    PlainOriginals(l, vs);
    OneSlice(PlainSlice(l, vs));
  }

  /** A value shared by the two lists is reported with the sum zero, although zero is not in the third list. */
  lemma ZeroReportedInError(a: Word, sols: seq<Triple>)
    requires a != {} && AllReported(sols, [a], [a], [PlainSlice(63, [{0}])])
    ensures Accepted([PlainSlice(63, [{0}])], [{0}], 63) && {} !in [{0}] && Triple(a, a, {}) in sols
  {
    PlainSliceIsGood(63, [{0}]);
    SingleBit(0, 9);
    OneVectorFindsZero({0});
    var s := PlainSlice(63, [{0}]);
    assert s in [s] && FindsZero(s.CM);
    ZeroSums(Triple(a, a, {}), sols, [a], [a], [s]);
  }

  /** A value shared by the two lists is not reported with the sum zero, although zero is in the third list: the other
      vector of the slice takes its slot. */
  lemma ZeroMissedInError(a: Word, sols: seq<Triple>)
    requires a != {} && AllReported(sols, [a], [a], [PlainSlice(50, [{}, {9}])])
    ensures Accepted([PlainSlice(50, [{}, {9}])], [{}, {9}], 50) && {} in [{}, {9}] && Triple(a, a, {}) !in sols
  {
    PlainSliceIsGood(50, [{}, {9}]);
    SingleBit(9, 9);
    ZeroCanBeMissed({9});
    var s := PlainSlice(50, [{}, {9}]);
    assert !SomeFindsZero([s]);
    ZeroSums(Triple(a, a, {}), sols, [a], [a], [s]);
  }

  lemma {:induction false} SingleBit(i: nat, k: nat)
    ensures i >= k ==> NumberOf({i}, k) == 0
    ensures i == 0 < k ==> NumberOf({i}, k) == 1
  {
    if k > 0 {
      SingleBit(i, k - 1);
    }
  }

  /** No reported triple is a fake: its values add up to zero, whatever the lists and the slices hold. */
  lemma NoFakeSolution(u: Triple, sols: seq<Triple>, L0: seq<Word>, L1: seq<Word>, slices: seq<Slice>)
    requires AllReported(sols, L0, L1, slices) && u in sols
    ensures u.z == Xor(u.x, u.y)
  {
    assert u in multiset(sols);
    if u.z == {} {
      ZeroSums(u, sols, L0, L1, slices);
      XorZero(u.x, u.y);
    } else {
      HitsPerSlice(u, L0, L1, slices);
      ProductPositive(Ways(u, L0, L1), SlicesWith(slices, u.z), 1);
    }
  }

  /** A triple of values from the three lists that add up to zero. */
  ghost predicate IsSolution(u: Triple, L0: seq<Word>, L1: seq<Word>, C: seq<Word>) {
    u.x in L0 && u.y in L1 && u.z in C && u.z == Xor(u.x, u.y)
  }

  /** What is found, for all lists: a zero in the first list is skipped, and the tables answer for the third value
      zero. */
  lemma FoundIff(u: Triple, sols: seq<Triple>, L0: seq<Word>, L1: seq<Word>, C: seq<Word>, slices: seq<Slice>, l: nat)
    requires Accepted(slices, C, l) && AllReported(sols, L0, L1, slices)
    ensures u in sols <==>
            && u.x != {} && u.x in L0 && u.y in L1 && u.z == Xor(u.x, u.y)
            && if u.z == {} then SomeFindsZero(slices) else u.z in C
  {
    if u.z != {} {
      FoundIffInLists(u, sols, L0, L1, C, slices, l);
    } else {
      ZeroSums(u, sols, L0, L1, slices);
      XorZero(u.x, u.y);
    }
  }

  /** A zero in the first list is part of a solution. */
  ghost predicate ZeroMatters(L0: seq<Word>, L1: seq<Word>, C: seq<Word>) {
    {} in L0 && exists v :: v in L1 && v in C
  }

  /** The first two lists share a value other than zero. */
  ghost predicate ShareValue(L0: seq<Word>, L1: seq<Word>) {
    exists x :: x != {} && x in L0 && x in L1
  }

  /** For all lists: exactly the solutions are found if and only if no solution has a zero from the first list and, in
      case the first two lists share another value, some table finds zero just when zero is in the third list. */
  lemma ExactIff(sols: seq<Triple>, L0: seq<Word>, L1: seq<Word>, C: seq<Word>, slices: seq<Slice>, l: nat)
    requires Accepted(slices, C, l) && AllReported(sols, L0, L1, slices)
    ensures (forall u: Triple :: u in sols <==> IsSolution(u, L0, L1, C))
       <==> !ZeroMatters(L0, L1, C) && (ShareValue(L0, L1) ==> (SomeFindsZero(slices) <==> {} in C))
  {
    forall u: Triple
      ensures u in sols <==>
              && u.x != {} && u.x in L0 && u.y in L1 && u.z == Xor(u.x, u.y)
              && if u.z == {} then SomeFindsZero(slices) else u.z in C
    {
      FoundIff(u, sols, L0, L1, C, slices, l);
    }
    if v: Word :| {} in L0 && v in L1 && v in C {
      XorWithZero(v);
      assert IsSolution(Triple({}, v, v), L0, L1, C) && Triple({}, v, v) !in sols;
    }
    if x: Word :| x != {} && x in L0 && x in L1 {
      XorZero(x, x);
      assert Triple(x, x, {}) in sols <==> SomeFindsZero(slices);
      assert IsSolution(Triple(x, x, {}), L0, L1, C) <==> {} in C;
    }
    forall u: Triple
      ensures u.z == Xor(u.x, u.y) ==> (u.z == {} ==> u.x == u.y) && (u.x == {} ==> u.y == u.z)
    {
      XorZero(u.x, u.y);
      XorWithZero(u.y);
    }
  }

  lemma XorWithZero(v: Word)
    ensures Xor({}, v) == v
  {
  }

  /** Lists that share no value, the first one without zeros: exactly the solutions are found. */
  ghost predicate GoodLists(L0: seq<Word>, L1: seq<Word>) {
    {} !in L0 && forall x | x in L0 :: x !in L1
  }

  /** A zero in the first list is skipped, although 0 ^ 1 is in the third list. */
  lemma ZeroSkippedInError(sols: seq<Triple>)
    requires AllReported(sols, [{}], [{0}], [PlainSlice(63, [{0}])])
    ensures Accepted([PlainSlice(63, [{0}])], [{0}], 63)
    ensures IsSolution(Triple({}, {0}, {0}), [{}], [{0}], [{0}]) && Triple({}, {0}, {0}) !in sols
  {
    PlainSliceIsGood(63, [{0}]);
    XorWithZero({0});
    FoundIff(Triple({}, {0}, {0}), sols, [{}], [{0}], [{0}], [PlainSlice(63, [{0}])], 63);
  }

  lemma FoundOften(u: Triple, sols: seq<Triple>, L0: seq<Word>, L1: seq<Word>, C: seq<Word>, slices: seq<Slice>, l: nat)
    requires GoodLists(L0, L1) && Accepted(slices, C, l) && AllReported(sols, L0, L1, slices)
    requires IsSolution(u, L0, L1, C) && multiset(C)[u.z] == 1
    ensures multiset(sols)[u] == multiset(L0)[u.x] * multiset(L1)[u.y]
  {
    XorZero(u.x, u.y);
    HitsPerSlice(u, L0, L1, slices);
    AcceptedMembers(slices, C, l, u.z);
  }

  /** End to end: the triples found are exactly those with a value from each list that add up to zero. If the third
      list has no repeated value, each is found once for each way of choosing the other two. */
  lemma JoinIsComplete(sols: seq<Triple>, L0: seq<Word>, L1: seq<Word>, C: seq<Word>, slices: seq<Slice>, l: nat)
    requires GoodLists(L0, L1) && Accepted(slices, C, l) && AllReported(sols, L0, L1, slices)
    ensures forall u: Triple :: u in sols <==> IsSolution(u, L0, L1, C)
    ensures forall u: Triple | u in sols && multiset(C)[u.z] == 1 ::
      multiset(sols)[u] == multiset(L0)[u.x] * multiset(L1)[u.y]
  {
    ExactIff(sols, L0, L1, C, slices, l);
    forall u: Triple | u in sols && multiset(C)[u.z] == 1
      ensures multiset(sols)[u] == multiset(L0)[u.x] * multiset(L1)[u.y]
    {
      FoundOften(u, sols, L0, L1, C, slices, l);
    }
  }

  lemma XorZero(x: Word, y: Word)
    ensures Xor(x, y) == {} <==> x == y
  {
    assert forall i :: i in Xor(x, y) <==> (i in x) != (i in y);
    if Xor(x, y) == {} {
      assert forall i :: i in x <==> i in y;
    }
  }

  /** The valid hashes of one kind in one partition. */
  ghost predicate Partition(hashes: seq<seq<Half>>, k: nat, key: Word)
    requires k <= 31
  {
    forall i | 0 <= i < |hashes| :: |hashes[i]| == 8 && IsValid(hashes[i]) && PartitioningKey(k, hashes[i]) == key
  }

  ghost function Partials(hashes: seq<seq<Half>>): (xs: seq<Word>)
    requires forall i | 0 <= i < |hashes| :: |hashes[i]| == 8
    ensures |xs| == |hashes| && forall i | 0 <= i < |hashes| :: xs[i] == PartialHash(hashes[i])
  {
    seq(|hashes|, i requires 0 <= i < |hashes| => PartialHash(hashes[i]))
  }

  /** The triple of three hashes whose sum starts with 97 + k zero bits. */
  ghost predicate NearCollision(u: Triple, a: seq<Half>, b: seq<Half>, c: seq<Half>, k: nat) {
    && |a| == |b| == |c| == 8 && u == Triple(PartialHash(a), PartialHash(b), PartialHash(c))
      && TopBitsZero(Sum3(a, b, c), 97 + k)
  }

  ghost predicate HasNearCollision(u: Triple, A: seq<seq<Half>>, B: seq<seq<Half>>, C: seq<seq<Half>>, k: nat) {
    exists i, j, n :: 0 <= i < |A| && 0 <= j < |B| && 0 <= n < |C| && NearCollision(u, A[i], B[j], C[n], k)
  }

  lemma FoundIsCollision(u: Triple, A: seq<seq<Half>>, B: seq<seq<Half>>, C: seq<seq<Half>>, k: nat, keyA: Word,
                         keyB: Word)
    requires k <= 31 && Partition(A, k, keyA) && Partition(B, k, keyB) && Partition(C, k, Xor(keyA, keyB))
    requires IsSolution(u, Partials(A), Partials(B), Partials(C))
    ensures HasNearCollision(u, A, B, C, k)
  {
    var i :| 0 <= i < |A| && Partials(A)[i] == u.x;
    var j :| 0 <= j < |B| && Partials(B)[j] == u.y;
    var n :| 0 <= n < |C| && Partials(C)[n] == u.z;
    XorZero(Xor(u.x, u.y), u.z);
    PackingIsCompatible(A[i], B[j], C[n], k);
    assert NearCollision(u, A[i], B[j], C[n], k);
  }

  lemma CollisionIsFound(u: Triple, A: seq<seq<Half>>, B: seq<seq<Half>>, C: seq<seq<Half>>, k: nat, keyA: Word,
                         keyB: Word)
    requires k <= 31 && Partition(A, k, keyA) && Partition(B, k, keyB) && Partition(C, k, Xor(keyA, keyB))
    requires HasNearCollision(u, A, B, C, k)
    ensures IsSolution(u, Partials(A), Partials(B), Partials(C))
  {
    var i, j, n :| 0 <= i < |A| && 0 <= j < |B| && 0 <= n < |C| && NearCollision(u, A[i], B[j], C[n], k);
    PackingIsCompatible(A[i], B[j], C[n], k);
    XorZero(Xor(u.x, u.y), u.z);
    assert Partials(A)[i] == u.x && Partials(B)[j] == u.y && Partials(C)[n] == u.z;
  }

  /** The whole computation: sliced, joined and lifted back, the partial hashes of three partitions i, j and i ^ j yield
      exactly the triples of hashes whose sum starts with 97 + k zero bits. */
  lemma AllNearCollisions(sols: seq<Triple>, A: seq<seq<Half>>, B: seq<seq<Half>>, C: seq<seq<Half>>, k: nat,
                          keyA: Word, keyB: Word,
                          slices: seq<Slice>, l: nat)
    requires k <= 31 && Partition(A, k, keyA) && Partition(B, k, keyB) && Partition(C, k, Xor(keyA, keyB))
    requires GoodLists(Partials(A), Partials(B)) && Accepted(slices, Partials(C), l)
    requires AllReported(sols, Partials(A), Partials(B), slices)
    ensures forall u: Triple :: u in sols <==> HasNearCollision(u, A, B, C, k)
  {
    JoinIsComplete(sols, Partials(A), Partials(B), Partials(C), slices, l);
    forall u: Triple
      ensures u in sols <==> HasNearCollision(u, A, B, C, k)
    {
      if u in sols {
        FoundIsCollision(u, A, B, C, k, keyA, keyB);
      }
      if HasNearCollision(u, A, B, C, k) {
        CollisionIsFound(u, A, B, C, k, keyA, keyB);
      }
    }
  }
}
