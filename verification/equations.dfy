/** Linear equations over lists of vectors. */
module Equations {
  import opened Words

  /** satisfy_equation: popcount(x & eq) is even. */
  predicate Satisfies(x: Word, eq: Word) {
    !Dot(eq, x)
  }

  /** The vectors that violate the equation, in order. */
  ghost function Violating(vs: seq<Word>, eq: Word): (r: seq<Word>)
  {
    if vs == [] then [] else
    var n := |vs| - 1;
    Violating(vs[..n], eq) + if Satisfies(vs[n], eq) then [] else [vs[n]]
  }

  /** The vectors that satisfy the equation, in order. */
  ghost function Satisfying(vs: seq<Word>, eq: Word): (r: seq<Word>)
  {
    if vs == [] then [] else
    var n := |vs| - 1;
    Satisfying(vs[..n], eq) + if Satisfies(vs[n], eq) then [vs[n]] else []
  }

  ghost predicate AllSatisfy(vs: seq<Word>, eq: Word) {
    forall v | v in vs :: Satisfies(v, eq)
  }

  /** Filtering only distributes the vectors. */
  lemma {:induction false} FilterConserves(vs: seq<Word>, eq: Word)
    ensures multiset(Violating(vs, eq)) + multiset(Satisfying(vs, eq)) == multiset(vs)
    ensures |Violating(vs, eq)| + |Satisfying(vs, eq)| == |vs|
  {
    if vs != [] {
      var n := |vs| - 1;
      FilterConserves(vs[..n], eq);
      assert vs == vs[..n] + [vs[n]];
      var a, b := Violating(vs[..n], eq), Satisfying(vs[..n], eq);
      if Satisfies(vs[n], eq) {
        assert Violating(vs, eq) == a;
        assert multiset(b + [vs[n]]) == multiset(b) + multiset{vs[n]};
      } else {
        assert Satisfying(vs, eq) == b;
        assert multiset(a + [vs[n]]) == multiset(a) + multiset{vs[n]};
      }
    }
  }

  lemma {:induction false} ViolatingMultiset(vs: seq<Word>, eq: Word, x: Word)
    ensures multiset(Violating(vs, eq))[x] == if Satisfies(x, eq) then 0 else multiset(vs)[x]
  {
    if vs != [] {
      var n := |vs| - 1;
      ViolatingMultiset(vs[..n], eq, x);
      LastSplit(vs, x);
    }
  }

  /** How many vectors violate an equation does not depend on their order. */
  lemma ViolationsOfPermutation(vs: seq<Word>, ws: seq<Word>, eq: Word)
    requires multiset(vs) == multiset(ws)
    ensures |Violating(vs, eq)| == |Violating(ws, eq)|
  {
    forall x: Word
      ensures multiset(Violating(vs, eq))[x] == multiset(Violating(ws, eq))[x]
    {
      ViolatingMultiset(vs, eq, x);
      ViolatingMultiset(ws, eq, x);
    }
    assert multiset(Violating(vs, eq)) == multiset(Violating(ws, eq));
    assert |multiset(Violating(vs, eq))| == |Violating(vs, eq)|;
    assert |multiset(Violating(ws, eq))| == |Violating(ws, eq)|;
  }

  lemma {:induction false} ViolatingConcat(vs: seq<Word>, ws: seq<Word>, eq: Word)
    ensures Violating(vs + ws, eq) == Violating(vs, eq) + Violating(ws, eq)
  {
    if ws == [] {
      assert vs + ws == vs;
    } else {
      var n := |ws| - 1;
      ViolatingConcat(vs, ws[..n], eq);
      var us := vs + ws;
      assert us[..|us| - 1] == vs + ws[..n] && us[|us| - 1] == ws[n];
      var tail := if Satisfies(ws[n], eq) then [] else [ws[n]];
      assert Violating(us, eq) == Violating(vs + ws[..n], eq) + tail;
      assert Violating(ws, eq) == Violating(ws[..n], eq) + tail;
      Associative(Violating(vs, eq), Violating(ws[..n], eq), tail);
    }
  }

  lemma Associative(a: seq<Word>, b: seq<Word>, c: seq<Word>)
    ensures (a + b) + c == a + (b + c)
  {}

  lemma {:induction false} NoneViolating(vs: seq<Word>, eq: Word)
    requires AllSatisfy(vs, eq)
    ensures Violating(vs, eq) == []
  {
    if vs != [] {
      NoneViolating(vs[..|vs| - 1], eq);
    }
  }

  /** If every vector but possibly the i-th satisfies the equation, at most one violates it. */
  lemma {:induction false} AtMostOneViolating(vs: seq<Word>, eq: Word, i: int)
    requires forall c | 0 <= c < |vs| && c != i :: Satisfies(vs[c], eq)
    ensures |Violating(vs, eq)| <= 1
  {
    if vs != [] {
      var n := |vs| - 1;
      if i == n {
        NoneViolating(vs[..n], eq);
      } else {
        AtMostOneViolating(vs[..n], eq, i);
      }
    }
  }

  lemma SomeViolating(vs: seq<Word>, eq: Word, v: Word)
    requires v in vs && !Satisfies(v, eq)
    ensures v in Violating(vs, eq) && |Violating(vs, eq)| >= 1
  {
    ViolatingMultiset(vs, eq, v);
  }

  lemma {:induction false} SatisfyingMembers(vs: seq<Word>, eq: Word)
    ensures forall v :: v in Satisfying(vs, eq) <==> v in vs && Satisfies(v, eq)
  {
    if vs != [] {
      SatisfyingMembers(vs[..|vs| - 1], eq);
      assert vs == vs[..|vs| - 1] + [vs[|vs| - 1]];
    }
  }

  function Reversed<T>(s: seq<T>): (r: seq<T>)
    ensures multiset(r) == multiset(s)
  {
    if s == [] then [] else
    var n := |s| - 1;
    assert s == s[..n] + [s[n]];
    [s[n]] + Reversed(s[..n])
  }
}
