/** Changes of basis: 64 rows E that map a word v to its coordinates (Dot(E[r], v)) for r < 64. */
module Basis {
  import opened Words
  import opened Linear

  ghost function Coords(E: seq<Word>, v: set<nat>): (s: Word)
    requires |E| == 64
    ensures forall r :: r in s <==> 0 <= r < 64 && Dot(E[r], v)
  {
    set r | 0 <= r < 64 && Dot(E[r], v)
  }

  /** No non-zero word is orthogonal to every row. */
  ghost predicate Nonsingular(E: seq<Word>)
    requires |E| == 64
  {
    forall v: Word :: Coords(E, v) == {} ==> v == {}
  }

  function Identity(): (E: seq<Word>)
    ensures |E| == 64 && forall r | 0 <= r < 64 :: E[r] == {r}
  {
    seq(64, r requires 0 <= r < 64 => {r})
  }

  lemma CoordsIdentity(v: Word)
    ensures Coords(Identity(), v) == v
  {
    forall r | 0 <= r < 64
      ensures r in v <==> Dot(Identity()[r], v)
    {
      DotUnit(r, v);
    }
  }

  lemma IdentityNonsingular()
    ensures Nonsingular(Identity())
  {
    forall v: Word
      ensures Coords(Identity(), v) == v
    {
      CoordsIdentity(v);
    }
  }

  /** Adding row j to the rows of a set ks that does not hold j. */
  ghost predicate RowsAdded(E: seq<Word>, E': seq<Word>, j: nat, ks: set<nat>) {
    |E| == |E'| == 64 && j < 64 && j !in ks
    && forall k | 0 <= k < 64 :: E'[k] == if k in ks then Xor(E[k], E[j]) else E[k]
  }

  ghost predicate RowsSwapped<T>(E: seq<T>, E': seq<T>, i: nat, j: nat) {
    |E| == |E'| && i < |E| && j < |E| && E' == E[i := E[j]][j := E[i]]
  }

  /** Row operations leave the set of words orthogonal to every row unchanged. */
  lemma RowsAddedOrthogonal(E: seq<Word>, E': seq<Word>, j: nat, ks: set<nat>, v: Word)
    requires RowsAdded(E, E', j, ks)
    ensures Coords(E, v) == {} <==> Coords(E', v) == {}
  {
    forall k | 0 <= k < 64
      ensures Dot(Xor(E[k], E[j]), v) == (Dot(E[k], v) != Dot(E[j], v))
    {
      DotXor(E[k], E[j], v);
    }
    assert j in Coords(E, v) <==> j in Coords(E', v);
    if k :| k in Coords(E, v) {
      assert k in Coords(E', v) || j in Coords(E', v);
    }
    if k :| k in Coords(E', v) {
      assert k in Coords(E, v) || j in Coords(E, v);
    }
  }

  lemma RowsSwappedOrthogonal(E: seq<Word>, E': seq<Word>, i: nat, j: nat, v: Word)
    requires |E| == 64 && RowsSwapped(E, E', i, j)
    ensures Coords(E, v) == {} <==> Coords(E', v) == {}
  {
    var a, b := Coords(E, v), Coords(E', v);
    assert i in a <==> j in b;
    assert j in a <==> i in b;
    assert forall k | 0 <= k < 64 && k != i && k != j :: k in a <==> k in b;
    assert a - {i, j} == b - {i, j};
  }

  lemma CoordsXor(E: seq<Word>, v: Word, w: Word)
    requires |E| == 64
    ensures Coords(E, Xor(v, w)) == Xor(Coords(E, v), Coords(E, w))
  {
    forall r | 0 <= r < 64
      ensures Dot(E[r], Xor(v, w)) == (Dot(E[r], v) != Dot(E[r], w))
    {
      DotXorRight(E[r], v, w);
    }
  }

  ghost function CoordsOfAll(E: seq<Word>, vs: seq<Word>): (us: seq<Word>)
    requires |E| == 64
    ensures |us| == |vs| && forall i | 0 <= i < |vs| :: us[i] == Coords(E, vs[i])
  {
    seq(|vs|, i requires 0 <= i < |vs| => Coords(E, vs[i]))
  }

  lemma {:induction false} CoordsCombo(E: seq<Word>, vs: seq<Word>, a: set<nat>, n: nat)
    requires |E| == 64 && n <= |vs|
    ensures Coords(E, Combo(vs, a, n)) == Combo(CoordsOfAll(E, vs), a, n)
  {
    if n == 0 {
      forall r | 0 <= r < 64
        ensures !Dot(E[r], {})
      {
        DotEmpty(E[r]);
      }
    } else {
      CoordsCombo(E, vs, a, n - 1);
      CoordsXor(E, Combo(vs, a, n - 1), vs[n - 1]);
    }
  }

  lemma {:induction false} ComboOfUnits(us: seq<Word>, a: set<nat>, n: nat)
    requires n <= |us|
    requires forall i | 0 <= i < n :: us[i] == {i}
    ensures Combo(us, a, n) == set i | i in a && i < n
  {
    if n > 0 {
      ComboOfUnits(us, a, n - 1);
    }
  }

  lemma UnitsIndependent(us: seq<Word>)
    requires forall i | 0 <= i < |us| :: us[i] == {i}
    ensures !Dependent(us)
  {
    forall a: set<nat> | a != {} && forall i | i in a :: i < |us|
      ensures Combo(us, a, |us|) != {}
    {
      ComboOfUnits(us, a, |us|);
      assert (set i | i in a && i < |us|) == a;
    }
  }

  ghost function ToSet(vs: seq<Word>): (s: set<Word>)
    ensures forall v :: v in s <==> v in vs
  {
    set v | v in vs
  }

  /** In a combination of distinct unit vectors, the bits tell which ones are taken. */
  lemma {:induction false} UnitInCombo(us: seq<Word>, at: seq<nat>, a: set<nat>, n: nat, c: nat)
    requires |us| == |at| && n <= |us| && c < |us|
    requires forall i | 0 <= i < |us| :: us[i] == {at[i]}
    requires forall i, j | 0 <= i < j < |at| :: at[i] != at[j]
    ensures at[c] in Combo(us, a, n) <==> c in a && c < n
  {
    if n > 0 {
      UnitInCombo(us, at, a, n - 1, c);
    }
  }

  /** Vectors whose coordinates are distinct unit vectors are independent. */
  lemma PivotsIndependent(E: seq<Word>, vs: seq<Word>, at: seq<nat>)
    requires |E| == 64 && |vs| == |at|
    requires forall c | 0 <= c < |vs| :: Coords(E, vs[c]) == {at[c]}
    requires forall i, j | 0 <= i < j < |at| :: at[i] != at[j]
    ensures !Dependent(vs)
  {
    forall a: set<nat> | a != {} && forall i | i in a :: i < |vs|
      ensures Combo(vs, a, |vs|) != {}
    {
      var c :| c in a;
      CoordsCombo(E, vs, a, |vs|);
      UnitInCombo(CoordsOfAll(E, vs), at, a, |vs|, c);
      DotEmpty(E[at[c]]);
    }
  }

  /** If the coordinates of every vector stay below j, the rank is at most j. */
  lemma ZeroRowsBoundRank(E: seq<Word>, s: set<Word>, j: nat)
    requires |E| == 64 && Nonsingular(E) && j <= 64
    requires forall v | v in s :: forall r | r in Coords(E, v) :: r < j
    ensures RankAtMost(s, j)
  {
    forall vs: seq<Word> | |vs| > j && forall v | v in vs :: v in s
      ensures Dependent(vs)
    {
      var us := CoordsOfAll(E, vs);
      var a := TooManyVectors(us, Below(|vs|), j);
      CoordsCombo(E, vs, a, |vs|);
      assert IsRelation(vs, a);
    }
  }

  /** A vector that violates an equation is independent of vectors that satisfy it. */
  lemma ViolatorIsIndependent(e: Word, vs: seq<Word>, x: Word)
    requires Dot(e, x) && forall v | v in vs :: !Dot(e, v)
    ensures Dependent(vs + [x]) ==> Dependent(vs)
  {
    var ws := vs + [x];
    if a: set<nat> :| IsRelation(ws, a) {
      ComboPrefix(ws, vs, a, |vs|);
      ComboSatisfies(e, vs, a, |vs|);
      if |vs| in a {
        DotXorRight(e, Combo(vs, a, |vs|), x);
        DotEmpty(e);
        assert false;
      }
      assert IsRelation(vs, a);
    }
  }

  /** Filtering by an equation that some vector of s violates makes the rank drop. */
  lemma FilterDropsRank(s: set<Word>, s': set<Word>, e: Word, r: int)
    requires r >= 0 && RankAtMost(s, r)
    requires s' <= s && forall v | v in s' :: !Dot(e, v)
    requires exists v :: v in s && Dot(e, v)
    ensures RankAtMost(s', r - 1)
  {
    var x :| x in s && Dot(e, x);
    forall vs: seq<Word> | |vs| > r - 1 && forall v | v in vs :: v in s'
      ensures Dependent(vs)
    {
      assert Dependent(vs + [x]);
      ViolatorIsIndependent(e, vs, x);
    }
  }

  lemma {:induction false} ComboPrefix(ws: seq<Word>, vs: seq<Word>, a: set<nat>, n: nat)
    requires n <= |vs| <= |ws| && forall i | 0 <= i < n :: ws[i] == vs[i]
    ensures Combo(ws, a, n) == Combo(vs, a, n)
  {
    if n > 0 {
      ComboPrefix(ws, vs, a, n - 1);
    }
  }

  lemma {:induction false} ComboSatisfies(e: Word, vs: seq<Word>, a: set<nat>, n: nat)
    requires n <= |vs| && forall v | v in vs :: !Dot(e, v)
    ensures !Dot(e, Combo(vs, a, n))
  {
    if n == 0 {
      DotEmpty(e);
    } else {
      ComboSatisfies(e, vs, a, n - 1);
      DotXorRight(e, Combo(vs, a, n - 1), vs[n - 1]);
    }
  }
}
