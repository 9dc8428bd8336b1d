/** Independent vectors: their span, their completion to a basis, and orthogonality. */
module Completion {
  import opened Words
  import opened Linear
  import opened Basis
  import opened Transpose

  /** A combination of two lists, one after the other. */
  lemma {:induction false} ComboConcat(us: seq<Word>, vs: seq<Word>, ws: seq<Word>, a: set<nat>, n: nat, k: nat)
    requires n <= |vs| && ws == us + vs && k == |us| + n
    ensures Combo(ws, a, k) == Xor(Combo(us, a, |us|), Combo(vs, Shr(a, |us|), n))
  {
    if n == 0 {
      ComboPrefix(ws, us, a, |us|);
    } else {
      ComboConcat(us, vs, ws, a, n - 1, k - 1);
      ShrBit(a, |us|, n - 1);
      XorAssociative(Combo(us, a, |us|), Combo(vs, Shr(a, |us|), n - 1), vs[n - 1]);
    }
  }

  lemma XorAssociative(x: set<nat>, y: set<nat>, z: set<nat>)
    ensures Xor(Xor(x, y), z) == Xor(x, Xor(y, z))
  {}

  /** The indices a of one list and c of another, as indices of both lists together. */
  lemma JoinIndices(a: set<nat>, c: set<nat>, k: nat, n: nat) returns (b: set<nat>)
    requires (forall i | i in a :: i < k) && (forall i | i in c :: i < n) && (a != {} || c != {})
    ensures b != {} && forall i | i in b :: i < k + n
    ensures (forall i | 0 <= i < k :: i in a <==> i in b) && Shr(b, k) == c
  {
    var moved := set i | i in c :: i + k;
    assert forall i | i in c :: i + k in moved;
    b := a + moved;
    forall i: nat
      ensures i in Shr(b, k) <==> i in c
    {
      ShrBit(b, k, i);
    }
  }

  lemma ComboCancels(us: seq<Word>, vs: seq<Word>, ws: seq<Word>, b: set<nat>)
    requires ws == us + vs && Combo(us, b, |us|) == Combo(vs, Shr(b, |us|), |vs|)
    ensures Combo(ws, b, |ws|) == {}
  {
    ComboConcat(us, vs, ws, b, |vs|, |ws|);
    XorSelf(Combo(us, b, |us|));
  }

  /** Combinations that cancel out make up a relation. */
  lemma JoinRelation(us: seq<Word>, vs: seq<Word>, a: set<nat>, c: set<nat>)
    requires (forall i | i in a :: i < |us|) && (forall i | i in c :: i < |vs|) && (a != {} || c != {})
    requires Combo(us, a, |us|) == Combo(vs, c, |vs|)
    ensures Dependent(us + vs)
  {
    var b := JoinIndices(a, c, |us|, |vs|);
    ComboLow(us, a, b, |us|);
    ComboCancels(us, vs, us + vs, b);
    assert IsRelation(us + vs, b);
  }

  /** A relation between two lists, cut in two. */
  lemma SplitRelation(us: seq<Word>, vs: seq<Word>) returns (a: set<nat>, c: set<nat>)
    requires Dependent(us + vs)
    ensures (forall i | i in a :: i < |us|) && (forall i | i in c :: i < |vs|) && (a != {} || c != {})
    ensures Combo(us, a, |us|) == Combo(vs, c, |vs|)
  {
    var b :| IsRelation(us + vs, b);
    a := set i | i in b && i < |us|;
    c := Shr(b, |us|);
    ComboLow(us, a, b, |us|);
    ComboConcat(us, vs, us + vs, b, |vs|, |us + vs|);
    var i :| i in b;
    if i >= |us| {
      ShrBit(b, |us|, i - |us|);
    }
    XorCancels(Combo(us, a, |us|), Combo(vs, c, |vs|));
  }

  lemma XorSelf(x: set<nat>)
    ensures Xor(x, x) == {}
  {}

  lemma XorCancels(x: set<nat>, y: set<nat>)
    requires Xor(x, y) == {}
    ensures x == y
  {
    assert forall i :: i in Xor(x, y) <==> (i in x) != (i in y);
  }

  /** The order of two lists does not matter. */
  lemma DependentEitherWay(us: seq<Word>, vs: seq<Word>)
    requires Dependent(us + vs)
    ensures Dependent(vs + us)
  {
    var a, c := SplitRelation(us, vs);
    JoinRelation(vs, us, c, a);
  }

  lemma PartIndependent(us: seq<Word>, vs: seq<Word>)
    requires !Dependent(us + vs)
    ensures !Dependent(us) && !Dependent(vs)
  {
    ComboLow(us, {}, {}, |us|);
    ComboDisjoint(us, {}, |us|);
    ComboDisjoint(vs, {}, |vs|);
    if a: set<nat> :| IsRelation(us, a) {
      JoinRelation(us, vs, a, {});
    }
    if c: set<nat> :| IsRelation(vs, c) {
      JoinRelation(us, vs, {}, c);
    }
  }

  /** A vector that depends on independent vectors is one of their combinations. */
  lemma Spanned(vs: seq<Word>, x: Word) returns (a: set<nat>)
    requires !Dependent(vs) && Dependent(vs + [x])
    ensures (forall i | i in a :: i < |vs|) && Combo(vs, a, |vs|) == x
  {
    var c;
    a, c := SplitRelation(vs, [x]);
    assert Combo([x], c, 0) == {};
    assert Combo([x], c, 1) == if 0 in c then Xor({}, x) else {};
    assert !IsRelation(vs, a);
  }

  ghost function CombosOf(vs: seq<Word>, rows: seq<Word>): (us: seq<Word>)
    ensures |us| == |rows| && forall i | 0 <= i < |rows| :: us[i] == Combo(vs, rows[i], |vs|)
  {
    seq(|rows|, i requires 0 <= i < |rows| => Combo(vs, rows[i], |vs|))
  }

  /** A combination of combinations. */
  lemma {:induction false} CombosCompose(vs: seq<Word>, rows: seq<Word>, a: set<nat>, n: nat)
    requires n <= |rows|
    ensures Combo(vs, Combo(rows, a, n), |vs|) == Combo(CombosOf(vs, rows), a, n)
  {
    if n == 0 {
      ComboDisjoint(vs, {}, |vs|);
    } else {
      CombosCompose(vs, rows, a, n - 1);
      ComboXor(vs, Combo(rows, a, n - 1), rows[n - 1], |vs|);
    }
  }

  /** What the unit vectors are combinations of. */
  lemma UnitsSpanned(vs: seq<Word>) returns (rows: seq<Word>)
    requires !Dependent(vs) && |vs| < 64
    requires forall i: nat | i < 64 :: Dependent(vs + [{i}])
    ensures |rows| == 64
    ensures forall r | 0 <= r < 64 :: (forall b | b in rows[r] :: b < |vs|) && Combo(vs, rows[r], |vs|) == {r}
  {
    rows := [];
    for i: nat := 0 to 64
      invariant |rows| == i
      invariant forall r | 0 <= r < i :: (forall b | b in rows[r] :: b < |vs|) && Combo(vs, rows[r], |vs|) == {r}
    {
      var a := Spanned(vs, {i});
      rows := rows + [a];
    }
  }

  /** More combinations than vectors are dependent. */
  lemma CombosDependent(vs: seq<Word>, rows: seq<Word>, us: seq<Word>)
    requires |vs| < |rows| && us == CombosOf(vs, rows)
    requires forall r | 0 <= r < |rows| :: forall b | b in rows[r] :: b < |vs|
    ensures Dependent(us)
  {
    var a := TooManyVectors(rows, Below(|us|), |vs|);
    CombosCompose(vs, rows, a, |us|);
    ComboDisjoint(vs, {}, |vs|);
    assert IsRelation(us, a);
  }

  /** Fewer than 64 vectors do not span every unit vector. */
  lemma SomeUnitOutside(vs: seq<Word>)
    requires !Dependent(vs) && |vs| < 64
    ensures exists j: nat :: j < 64 && !Dependent(vs + [{j}])
  {
    if forall i: nat | i < 64 :: Dependent(vs + [{i}]) {
      var rows := UnitsSpanned(vs);
      CombosDependent(vs, rows, CombosOf(vs, rows));
      UnitsIndependent(CombosOf(vs, rows));
    }
  }

  /** Independent vectors are part of a basis. */
  lemma {:induction false} Complete(vs: seq<Word>) returns (ws: seq<Word>)
    requires !Dependent(vs) && |vs| <= 64
    ensures |ws| + |vs| == 64 && !Dependent(ws + vs)
    decreases 64 - |vs|
  {
    if |vs| == 64 {
      ws := [];
      assert ws + vs == vs;
    } else {
      SomeUnitOutside(vs);
      var j: nat :| j < 64 && !Dependent(vs + [{j}]);
      var u: Word := {j};
      if Dependent([u] + vs) {
        DependentEitherWay([u], vs);
      }
      ws := Complete([u] + vs);
      assert (ws + [u]) + vs == ws + ([u] + vs);
      ws := ws + [u];
    }
  }

  /** More than 64 words are dependent. */
  lemma AtMost64(vs: seq<Word>)
    requires !Dependent(vs)
    ensures |vs| <= 64
  {
    RankAtMost64(ToSet(vs));
  }

  /** The rows of a matrix are independent only if no non-zero word is orthogonal to all of them. */
  lemma IndependentIsNonsingular(E: seq<Word>)
    requires |E| == 64 && !Dependent(E)
    ensures Nonsingular(E)
  {
    forall v: Word | Coords(E, v) == {}
      ensures v == {}
    {
      forall i | i in v
        ensures false
      {
        var u: Word := {i};
        if !Dependent(E + [u]) {
          AtMost64(E + [u]);
        }
        var a := Spanned(E, u);
        forall e | e in E
          ensures !Dot(v, e)
        {
          var r :| 0 <= r < 64 && E[r] == e;
          assert r !in Coords(E, v);
          DotSymmetric(v, e);
        }
        ComboSatisfies(v, E, a, 64);
        DotUnit(i, v);
      }
    }
  }

  /** Rows are dependent if and only if the transposed matrix is singular. */
  lemma TransposeSingular(T: seq<Word>, M: seq<Word>)
    requires |T| == |M| == 64 && Transposed(T, M)
    ensures Nonsingular(M) <==> !Dependent(T)
  {
    forall v: Word
      ensures Combo(T, v, 64) == Coords(M, v)
    {
      CombinationIsCoords(T, M, v);
    }
    if v: Word :| Coords(M, v) == {} && v != {} {
      assert IsRelation(T, v);
    }
    if a: set<nat> :| IsRelation(T, a) {
      var v: Word := a;
      assert Coords(M, v) == {};
    }
  }

  lemma CombinationIsCoords(T: seq<Word>, M: seq<Word>, v: Word)
    requires |T| == |M| == 64 && Transposed(T, M)
    ensures Combo(T, v, 64) == Coords(M, v)
  {
    forall c | 0 <= c < 64
      ensures c in Combo(T, v, 64) <==> Dot(M[c], v)
    {
      ComboBit(T, v, 64, c, M[c]);
    }
  }

  /** The rows of a nonsingular matrix are independent. */
  lemma NonsingularIsIndependent(E: seq<Word>)
    requires |E| == 64 && Nonsingular(E)
    ensures !Dependent(E)
  {
    var T := CoordsOfAll(E, Identity());
    forall i, j | 0 <= i < 64 && 0 <= j < 64
      ensures j in T[i] <==> i in E[j]
    {
      DotUnit(i, E[j]);
    }
    forall a: set<nat> | a != {} && forall i | i in a :: i < 64
      ensures Combo(T, a, |T|) != {}
    {
      CombinationIsCoords(T, E, a);
    }
    IndependentIsNonsingular(T);
    TransposeSingular(E, T);
  }

  /** k independent equations that the vectors of rank 64 - k satisfy imply every other equation that they satisfy. */
  lemma ImpliedEquation(s: set<Word>, equations: seq<Word>, w: Word)
    requires !Dependent(equations) && RankAtLeast(s, 64 - |equations|)
    requires forall v, e | v in s && e in equations + [w] :: !Dot(e, v)
    ensures Dependent(equations + [w])
  {
    var more := equations + [w];
    if !Dependent(more) {
      AtMost64(more);
      var ws := Complete(more);
      var E := ws + more;
      IndependentIsNonsingular(E);
      forall v, r | v in s && r in Coords(E, v)
        ensures r < |ws|
      {
        assert forall i | 0 <= i < |more| :: E[|ws| + i] == more[i];
      }
      ZeroRowsBoundRank(E, s, |ws|);
      RankBounds(s, 64 - |equations|, |ws|);
    }
  }

  /** Equations can be padded to the rows of an invertible matrix if and only if they are independent. */
  lemma PaddableIffIndependent(equations: seq<Word>)
    requires |equations| <= 64
    ensures !Dependent(equations) <==>
            exists draws: seq<Word> :: |draws| + |equations| == 64 && !Dependent(draws + equations)
  {
    if !Dependent(equations) {
      var draws := Complete(equations);
    }
    if draws: seq<Word> :| |draws| + |equations| == 64 && !Dependent(draws + equations) {
      PartIndependent(draws, equations);
    }
  }

  /** Some of the words add up to an equation that all the vectors satisfy. */
  ghost predicate Blocked(draws: seq<Word>, s: set<Word>) {
    exists a: set<nat> :: IsBlocking(draws, s, a)
  }

  ghost predicate IsBlocking(draws: seq<Word>, s: set<Word>, a: set<nat>) {
    a != {} && (forall i | i in a :: i < |draws|) && forall v | v in s :: !Dot(Combo(draws, a, |draws|), v)
  }

  /** Whether words complete such equations to a basis does not depend on the equations, but on the vectors only. */
  lemma PaddingFailsIff(draws: seq<Word>, equations: seq<Word>, s: set<Word>)
    requires !Dependent(equations) && RankAtLeast(s, 64 - |equations|)
    requires forall v, e | v in s && e in equations :: !Dot(e, v)
    ensures Dependent(draws + equations) <==> Blocked(draws, s)
  {
    if Dependent(draws + equations) {
      var a, c := SplitRelation(draws, equations);
      if a == {} {
        ComboDisjoint(draws, a, |draws|);
        assert IsRelation(equations, c);
      }
      forall v | v in s
        ensures !Dot(Combo(draws, a, |draws|), v)
      {
        SatisfiedByAll(equations, c, v);
      }
      assert IsBlocking(draws, s, a);
    }
    if a: set<nat> :| IsBlocking(draws, s, a) {
      var w := Combo(draws, a, |draws|);
      ImpliedEquation(s, equations, w);
      var c := Spanned(equations, w);
      JoinRelation(draws, equations, a, c);
    }
  }

  lemma SatisfiedByAll(equations: seq<Word>, c: set<nat>, v: Word)
    requires forall e | e in equations :: !Dot(e, v)
    ensures !Dot(Combo(equations, c, |equations|), v)
  {
    forall e | e in equations
      ensures !Dot(v, e)
    {
      DotSymmetric(v, e);
    }
    ComboSatisfies(v, equations, c, |equations|);
    DotSymmetric(v, Combo(equations, c, |equations|));
  }
}
