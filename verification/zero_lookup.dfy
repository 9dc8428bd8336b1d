/** Looking up the word zero, which is not stored but marks the empty slots. */
module ZeroLookup {
  import opened Words
  import opened Numbers
  import opened Probing
  import opened HashTables

  /** The lookup in the table built for a list answers that zero is in it. */
  ghost predicate FindsZero(vs: seq<Word>) {
    Answers(TableOf(vs).0, TableOf(vs).1, {})
  }

  lemma HomeOfZero()
    ensures H0({}) == 0 && H1({}) == 0
  {
    NumberOfNothing(9);
    assert Shr({}, 16) == {};
  }

  lemma {:induction false} LinearHasRoom(vs: seq<Word>)
    ensures multiset(LinearTable(vs))[{}] >= 512 - |vs|
  {
    if vs == [] {
      EmptyTableHoldsNothing();
    } else {
      var n := |vs| - 1;
      LinearHasRoom(vs[..n]);
      var T := LinearTable(vs[..n]);
      OneSlotLess(T, FirstFree(T, H0(vs[n]), 0), vs[n]);
    }
  }

  lemma OneSlotLess(T: Table, s: Slot, x: Word)
    ensures multiset(T[s := x])[{}] + 1 >= multiset(T)[{}]
  {
    Exchange(T, s, x);
    assert (multiset(T[s := x]) + multiset{T[s]})[{}] == (multiset(T) + multiset{x})[{}];
  }

  /** The kind of table decides: one with linear probing always finds zero, a cuckoo table does if its slot 0 is
      empty. */
  lemma ZeroIsEmptySlot(vs: seq<Word>)
    requires |vs| < 512
    ensures FindsZero(vs) <==> (CuckooTable(vs).1 ==> CuckooTable(vs).0[0] == {})
  {
    HomeOfZero();
    LinearHasRoom(vs);
    var T := LinearTable(vs);
    assert {} in T <==> {} in multiset(T);
  }

  /** No word of the table belongs in slot s. */
  ghost predicate Avoids(T: Table, s: Slot) {
    T[s] == {} && forall t | 0 <= t < 512 && T[t] != {} :: H0(T[t]) != s && H1(T[t]) != s
  }

  lemma {:induction false} RunAvoids(T: Table, x: Word, h: Slot, n: nat, s: Slot)
    requires Avoids(T, s) && h != s && H0(x) != s && H1(x) != s
    ensures Avoids(CuckooRun(T, x, h, n).0, s)
    decreases n
  {
    var y := T[h];
    if n > 0 && y != {} {
      RunAvoids(T[h := x], y, if H0(y) == h then H1(y) else H0(y), n - 1, s);
    }
  }

  lemma {:induction false} TableAvoids(vs: seq<Word>, s: Slot)
    requires forall v | v in vs :: H0(v) != s && H1(v) != s
    ensures Avoids(CuckooTable(vs).0, s)
  {
    if vs != [] {
      var n := |vs| - 1;
      TableAvoids(vs[..n], s);
      if CuckooTable(vs[..n]).1 {
        RunAvoids(CuckooTable(vs[..n]).0, vs[n], H0(vs[n]), MAX_LOOPS, s);
      }
    }
  }

  /** Evictions fill the slot they start from, and empty none. */
  lemma {:induction false} RunOccupies(T: Table, x: Word, h: Slot, n: nat, s: Slot)
    requires x != {} && n > 0 && (T[s] != {} || h == s)
    ensures CuckooRun(T, x, h, n).0[s] != {}
    decreases n
  {
    var y := T[h];
    if n > 1 && y != {} {
      RunOccupies(T[h := x], y, if H0(y) == h then H1(y) else H0(y), n - 1, s);
    }
  }

  lemma {:induction false} TableOccupies(vs: seq<Word>, v: Word)
    requires {} !in vs && v in vs && CuckooTable(vs).1
    ensures CuckooTable(vs).0[H0(v)] != {}
  {
    var n := |vs| - 1;
    var T := CuckooTable(vs[..n]).0;
    assert vs == vs[..n] + [vs[n]];
    if vs[n] != v {
      TableOccupies(vs[..n], v);
    }
    RunOccupies(T, vs[n], H0(vs[n]), MAX_LOOPS, H0(v));
  }

  /** When a slice finds zero, in terms of its vectors: if none of them belongs in slot 0, and not if one of them is put
      there at first. */
  lemma ZeroFoundOrNot(vs: seq<Word>)
    requires |vs| < 512 && {} !in vs
    ensures (forall v | v in vs :: H0(v) != 0 && H1(v) != 0) ==> FindsZero(vs)
    ensures (exists v :: v in vs && H0(v) == 0) ==> (FindsZero(vs) <==> TableOf(vs).1)
  {
    ZeroIsEmptySlot(vs);
    if forall v | v in vs :: H0(v) != 0 && H1(v) != 0 {
      TableAvoids(vs, 0);
    }
    if v: Word :| v in vs && H0(v) == 0 {
      if CuckooTable(vs).1 {
        TableOccupies(vs, v);
      }
    }
  }

  lemma TableOfOne(x: Word)
    ensures CuckooTable([x]) == (EmptyTable()[H0(x) := x], true)
  {
    assert [x][..0] == [];
    assert CuckooTable([x][..0]) == (EmptyTable(), true);
    assert CuckooTable([x]) == CuckooInserted(EmptyTable(), x);
  }

  /** A single vector that is not zero: zero is found unless the vector is in slot 0. */
  lemma OneVectorFindsZero(x: Word)
    requires x != {}
    ensures FindsZero([x]) <==> H0(x) != 0
  {
    TableOfOne(x);
    ZeroIsEmptySlot([x]);
  }

  /** Zero and a vector for slot 0: zero is a vector of the slice, but is not found. */
  lemma ZeroCanBeMissed(x: Word)
    requires x != {} && H0(x) == 0
    ensures !FindsZero([{}, x])
  {
    var vs: seq<Word> := [{}, x];
    HomeOfZero();
    TableOfOne({});
    assert vs[..1] == [{}];
    assert CuckooTable(vs) == CuckooInserted(CuckooTable(vs[..1]).0, x);
    ZeroIsEmptySlot(vs);
  }
}
