/** The hash tables that hold the vectors of a slice: a cuckoo table or, when it cannot be built, a
    table with linear probing. The zero word marks an empty slot. */
module HashTables {
  import opened Words
  import opened Numbers
  import opened Probing

  /** x & 511 */
  function H0(x: Word): (h: Slot) {
    assert Pow2(9) == 512;
    NumberOf(x, 9)
  }

  /** (x >> 16) & 511 */
  function H1(x: Word): (h: Slot) {
    assert Pow2(9) == 512;
    NumberOf(Shr(x, 16), 9)
  }

  /** The two slots of a word, in terms of its number. */
  lemma SlotsOfNumber(x: Word)
    ensures H0(x) == NumberOf(x, 64) % 512 && H1(x) == NumberOf(x, 64) / 0x1_0000 % 512
  {
    assert Pow2(9) == 512 && Pow2(16) == 0x1_0000;
    ShiftDivides(x, 9, 64);
    ShiftDivides(x, 16, 64);
    ShiftDivides(Shr(x, 16), 9, 48);
  }

  /** Every word is in one of its two slots. */
  ghost predicate Placed(T: Table) {
    forall s | 0 <= s < 512 && T[s] != {} :: H0(T[s]) == s || H1(T[s]) == s
  }

  /** The table after the linear insertion of x. */
  function LinearInserted(T: Table, x: Word): (T': Table) {
    T[FirstFree(T, H0(x), 0) := x]
  }

  /** linear_insert */
  method LinearInsert(H: array<Word>, x: Word)
    requires H.Length == 512 && Probed(H[..], H0) && {} in H[..]
    modifies H
    ensures Probed(H[..], H0)
    ensures multiset(H[..]) == multiset(old(H[..])) - multiset{{}} + multiset{x}
    ensures H[..] == LinearInserted(old(H[..]), x)
  {
    ProbeInsert(H, x, H0(x), H0);
  }

  /** Decides membership of any non-zero word. The zero word is always found, in an empty slot. */
  method LinearLookup(H: array<Word>, x: Word) returns (found: bool)
    requires H.Length == 512 && Probed(H[..], H0) && {} in H[..]
    ensures found <==> x in H[..]
  {
    var h := H0(x);
    ghost var e := 0;
    ghost var bound := FirstEmpty(H[..], H0(x));
    while true
      invariant e <= bound && h == Ahead(H0(x), e) && Occupied(H[..], H0(x), e)
      invariant forall i | 0 <= i < e :: H[Ahead(H0(x), i)] != x
      decreases bound - e
    {
      var probe := H[h];
      h := Next(h);
      if probe == x {
        return true;
      }
      if probe == {} {
        if x in H[..] {
          var t :| 0 <= t < 512 && H[t] == x;
          NothingPastEmpty(H[..], H0, H0(x), e, t);
        }
        return false;
      }
      e := e + 1;
    }
  }

  /** Membership in a cuckoo table. */
  predicate CuckooLookup(H: seq<Word>, x: Word)
    requires |H| == 512
  {
    H[H0(x)] == x || H[H1(x)] == x
  }

  lemma CuckooLookupIsMembership(H: seq<Word>, x: Word)
    requires |H| == 512 && Placed(H) && x != {}
    ensures CuckooLookup(H, x) <==> x in H
  {}

  const MAX_LOOPS: nat := 2 * 512

  /** The table after n evictions at most, with x in hand for slot h, and whether the hand was empty in the end. */
  function CuckooRun(T: Table, x: Word, h: Slot, n: nat): (r: (Table, bool))
    decreases n
  {
    if n == 0 then (T, false) else
    var y := T[h];
    if y == {} then (T[h := x], true) else CuckooRun(T[h := x], y, if H0(y) == h then H1(y) else H0(y), n - 1)
  }

  function CuckooInserted(T: Table, x: Word): (r: (Table, bool)) {
    CuckooRun(T, x, H0(x), MAX_LOOPS)
  }

  /** Tries to insert x, evicting words to their other slot for as long as there are any. No word is
      lost but the one left in hand upon failure. */
  method CuckooInsert(H: array<Word>, x: Word) returns (ok: bool, ghost hand: Word)
    requires H.Length == 512 && Placed(H[..])
    modifies H
    ensures Placed(H[..])
    ensures multiset(H[..]) + multiset{hand} == multiset(old(H[..])) + multiset{x}
    ensures ok <==> hand == {}
    ensures (H[..], ok) == CuckooInserted(old(H[..]), x)
  {
    var x := x;
    ghost var x0 := x;
    var h := H0(x);
    for loops := 0 to 2 * 512
      invariant Placed(H[..]) && (h == H0(x) || h == H1(x))
      invariant multiset(H[..]) + multiset{x} == multiset(old(H[..])) + multiset{x0}
      invariant loops > 0 ==> x != {}
      invariant CuckooRun(H[..], x, h, MAX_LOOPS - loops) == CuckooInserted(old(H[..]), x0)
    {
      Exchange(H[..], h, x);
      var y := x;
      x := H[h];
      H[h] := y;
      var h0 := H0(x);
      var h1 := H1(x);
      if x == {} {
        return true, {};
      }
      h := if h0 == h then h1 else h0;
    }
    return false, x;
  }

  lemma Exchange(T: Table, h: Slot, x: Word)
    ensures multiset(T[h := x]) + multiset{T[h]} == multiset(T) + multiset{x}
  {
    assert T == T[..h] + [T[h]] + T[h + 1..];
    assert T[h := x] == T[..h] + [x] + T[h + 1..];
  }

  /** The table holds the words of the list, each as many times as the list, besides zeros. */
  ghost predicate Holds(T: seq<Word>, vs: seq<Word>) {
    forall x: Word | x != {} :: multiset(T)[x] == multiset(vs)[x]
  }

  lemma HoldsStore(T: seq<Word>, T': seq<Word>, vs: seq<Word>, x: Word)
    requires Holds(T, vs) && multiset(T') + multiset{{}} == multiset(T) + multiset{x}
    ensures Holds(T', vs + [x])
  {
    forall y: Word | y != {}
      ensures multiset(T')[y] == multiset(vs + [x])[y]
    {
      assert (multiset(T') + multiset{{}})[y] == multiset(T')[y];
    }
  }

  method Clear(H: array<Word>)
    requires H.Length == 512
    modifies H
    ensures H[..] == EmptyTable()
  {
    for i := 0 to 512
      invariant forall s | 0 <= s < i :: H[s] == {}
    {
      H[i] := {};
    }
  }

  lemma {:induction false} ManyZeros(n: nat, x: Word)
    ensures multiset(seq<Word>(n, _ => {}))[x] == if x == {} then n else 0
  {
    if n > 0 {
      ManyZeros(n - 1, x);
      assert seq<Word>(n, _ => {}) == seq<Word>(n - 1, _ => {}) + [{}];
    }
  }

  lemma EmptyTableHoldsNothing()
    ensures Holds(EmptyTable(), []) && multiset(EmptyTable())[{}] == 512
    ensures Placed(EmptyTable()) && Probed(EmptyTable(), H0)
  {
    assert EmptyTable() == seq<Word>(512, _ => {});
    forall x: Word
      ensures multiset(EmptyTable())[x] == if x == {} then 512 else 0
    {
      ManyZeros(512, x);
    }
  }

  /** The cuckoo table for the words of a list, and whether all of them could be placed. */
  function CuckooTable(vs: seq<Word>): (r: (Table, bool)) {
    if vs == [] then (EmptyTable(), true) else
    var n := |vs| - 1;
    var r := CuckooTable(vs[..n]);
    if r.1 then CuckooInserted(r.0, vs[n]) else r
  }

  function LinearTable(vs: seq<Word>): (T: Table) {
    if vs == [] then EmptyTable() else
    var n := |vs| - 1;
    LinearInserted(LinearTable(vs[..n]), vs[n])
  }

  /** The table for the words of a list, and whether it is one with linear probing. */
  function TableOf(vs: seq<Word>): (r: (Table, bool)) {
    if CuckooTable(vs).1 then (CuckooTable(vs).0, false) else (LinearTable(vs), true)
  }

  /** A word that cannot be placed stops the construction. */
  lemma {:induction false} StaysFailed(vs: seq<Word>, i: nat)
    requires i <= |vs| && !CuckooTable(vs[..i]).1
    ensures !CuckooTable(vs).1
    decreases |vs|
  {
    if i < |vs| {
      var n := |vs| - 1;
      assert vs[..n][..i] == vs[..i];
      StaysFailed(vs[..n], i);
    } else {
      assert vs[..i] == vs;
    }
  }

  /** The cuckoo table holds the first k words of a list. */
  ghost predicate CuckooFilled(T: seq<Word>, vs: seq<Word>, k: nat) {
    // The condition is named so that the verifier does not split it.
    k <= |vs| && |T| == 512
    && var filled := Placed(T) && Holds(T, vs[..k]) && CuckooTable(vs[..k]) == (T, true); filled
  }

  /** The table with linear probing holds the first k words of a list. */
  ghost predicate LinearFilled(T: seq<Word>, vs: seq<Word>, k: nat) {
    // The condition is named so that the verifier does not split it.
    k <= |vs| && |T| == 512
    && var filled := Probed(T, H0) && Holds(T, vs[..k]) && multiset(T)[{}] >= 512 - k && T == LinearTable(vs[..k]);
       filled
  }

  lemma NoneFilled(vs: seq<Word>)
    ensures CuckooFilled(EmptyTable(), vs, 0) && LinearFilled(EmptyTable(), vs, 0)
  {
    EmptyTableHoldsNothing();
    assert vs[..0] == [];
  }

  lemma AllFilled(T: Table, vs: seq<Word>)
    ensures CuckooFilled(T, vs, |vs|) ==> Placed(T) && Holds(T, vs) && CuckooTable(vs) == (T, true)
    ensures LinearFilled(T, vs, |vs|) && |vs| < 512 ==> Probed(T, H0) && {} in T && Holds(T, vs) && T == LinearTable(vs)
  {
    assert vs[..|vs|] == vs;
    assert {} in T <==> {} in multiset(T);
  }

  lemma WholeFilled(T: seq<Word>, vs: seq<Word>, k: nat, n: nat)
    requires k == n
    ensures CuckooFilled(T, vs, k) ==> CuckooFilled(T, vs, n)
    ensures LinearFilled(T, vs, k) ==> LinearFilled(T, vs, n)
  {}

  lemma NextWord(vs: seq<Word>, i: nat)
    requires i < |vs|
    ensures vs[..i + 1] == vs[..i] + [vs[i]] && vs[..i + 1][..i] == vs[..i]
  {}

  method CuckooStep(H: array<Word>, x: Word, ghost vs: seq<Word>, ghost k: nat) returns (ok: bool)
    requires H.Length == 512 && CuckooFilled(H[..], vs, k) && k < |vs| && vs[k] == x
    modifies H
    ensures if ok then CuckooFilled(H[..], vs, k + 1) else !CuckooTable(vs).1
  {
    ghost var T := H[..];
    ghost var hand;
    ok, hand := CuckooInsert(H, x);
    NextWord(vs, k);
    if ok {
      HoldsStore(T, H[..], vs[..k], x);
    } else {
      StaysFailed(vs, k + 1);
    }
  }

  /** Inserts the words one by one until one cannot be placed. */
  method CuckooFill(L: array<Word>, lo: nat, hi: nat, H: array<Word>, ghost vs: seq<Word>) returns (fail: bool)
    requires lo <= hi <= L.Length && vs == L[lo..hi] && H.Length == 512 && L != H && CuckooFilled(H[..], vs, 0)
    modifies H
    ensures if fail then !CuckooTable(vs).1 else CuckooFilled(H[..], vs, |vs|)
  {
    var i := lo;
    ghost var k := 0;
    while i < hi
      invariant i == lo + k && i <= hi && CuckooFilled(H[..], vs, k)
    {
      assert vs[k] == L[i];
      var ok := CuckooStep(H, L[i], vs, k);
      if !ok {
        return true;
      }
      i := i + 1;
      k := k + 1;
    }
    WholeFilled(H[..], vs, k, |vs|);
    return false;
  }

  method LinearStep(H: array<Word>, x: Word, ghost vs: seq<Word>, ghost k: nat)
    requires H.Length == 512 && LinearFilled(H[..], vs, k) && k < |vs| && k < 511 && vs[k] == x
    modifies H
    ensures LinearFilled(H[..], vs, k + 1)
  {
    ghost var T := H[..];
    assert {} in multiset(T);
    LinearInsert(H, x);
    LinearNext(T, H[..], x, vs, k);
  }

  lemma LinearNext(T: Table, T': Table, x: Word, vs: seq<Word>, k: nat)
    requires LinearFilled(T, vs, k) && k < |vs| && k < 511 && vs[k] == x
    requires Probed(T', H0) && T' == LinearInserted(T, x) && multiset(T') == multiset(T) - multiset{{}} + multiset{x}
    ensures LinearFilled(T', vs, k + 1)
  {
    HoldsStore(T, T', vs[..k], x);
    NextWord(vs, k);
  }

  method LinearFill(L: array<Word>, lo: nat, hi: nat, H: array<Word>, ghost vs: seq<Word>)
    requires lo <= hi <= L.Length && vs == L[lo..hi] && |vs| < 512 && H.Length == 512 && L != H
      && LinearFilled(H[..], vs, 0)
    modifies H
    ensures LinearFilled(H[..], vs, |vs|)
  {
    ghost var k := 0;
    for i := lo to hi
      invariant i == lo + k && LinearFilled(H[..], vs, k)
    {
      assert vs[k] == L[i];
      LinearStep(H, L[i], vs, k);
      k := k + 1;
    }
    WholeFilled(H[..], vs, k, |vs|);
  }

  /** The lookup that goes with the table: the flag tells which of the two kinds it is. */
  ghost predicate Answers(H: seq<Word>, bad: bool, x: Word)
    requires |H| == 512
  {
    if bad then x in H else CuckooLookup(H, x)
  }

  /** The table is well formed for the lookup that the flag selects. */
  ghost predicate Ready(H: seq<Word>, bad: bool)
    requires |H| == 512
  {
    if bad then Probed(H, H0) && {} in H else Placed(H)
  }

  lemma AnswersAreMembership(H: seq<Word>, bad: bool, vs: seq<Word>, x: Word)
    requires |H| == 512 && Ready(H, bad) && Holds(H, vs) && x != {}
    ensures Answers(H, bad, x) <==> x in vs
  {
    if !bad {
      CuckooLookupIsMembership(H, x);
    }
    assert x in H <==> x in multiset(H);
    assert x in vs <==> x in multiset(vs);
  }

  /** Builds a cuckoo table or, failing that, a table with linear probing. Either way its lookup
      decides membership of every non-zero word. */
  method CuckooBuild(L: array<Word>, lo: nat, hi: nat, H: array<Word>) returns (fail: bool)
    requires lo <= hi <= L.Length && hi - lo < 512 && H.Length == 512 && L != H
    modifies H
    ensures Ready(H[..], fail) && Holds(H[..], L[lo..hi])
    ensures forall x: Word | x != {} :: Answers(H[..], fail, x) <==> x in L[lo..hi]
    ensures (H[..], fail) == TableOf(L[lo..hi])
  {
    ghost var vs := L[lo..hi];
    NoneFilled(vs);
    Clear(H);
    fail := CuckooFill(L, lo, hi, H, vs);
    if fail {
      Clear(H);
      LinearFill(L, lo, hi, H, vs);
    }
    AllFilled(H[..], vs);
    forall x: Word | x != {}
      ensures Answers(H[..], fail, x) <==> x in L[lo..hi]
    {
      AnswersAreMembership(H[..], fail, L[lo..hi], x);
    }
  }
}
