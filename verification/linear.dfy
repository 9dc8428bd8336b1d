/** Linear algebra over GF(2): combinations of vectors, dependence, and rank. */
module Linear {
  import opened Words

  /** The sum of those of the first n vectors whose index is in a. */
  function Combo(vs: seq<Word>, a: set<nat>, n: nat): (s: Word)
    requires n <= |vs|
  {
    if n == 0 then {}
    else if n - 1 in a then Xor(Combo(vs, a, n - 1), vs[n - 1])
    else Combo(vs, a, n - 1)
  }

  lemma {:induction false} ComboXor(vs: seq<Word>, a: set<nat>, b: set<nat>, n: nat)
    requires n <= |vs|
    ensures Combo(vs, Xor(a, b), n) == Xor(Combo(vs, a, n), Combo(vs, b, n))
  {
    if n > 0 {
      ComboXor(vs, a, b, n - 1);
    }
  }

  lemma {:induction false} ComboDisjoint(vs: seq<Word>, a: set<nat>, n: nat)
    requires n <= |vs|
    requires forall i | 0 <= i < n :: i !in a
    ensures Combo(vs, a, n) == {}
  {
    if n > 0 {
      ComboDisjoint(vs, a, n - 1);
    }
  }

  lemma {:induction false} ComboUnit(vs: seq<Word>, j: nat, n: nat)
    requires n <= |vs|
    ensures Combo(vs, {j}, n) == if j < n then vs[j] else {}
  {
    if n > 0 {
      ComboUnit(vs, j, n - 1);
    }
  }

  /** Bit c of a combination is an inner product with the bits c of the vectors. */
  lemma {:induction false} ComboBit(M: seq<Word>, x: set<nat>, n: nat, c: nat, column: set<nat>)
    requires n <= |M| && forall r | 0 <= r < n :: c in M[r] <==> r in column
    requires forall r | r in column :: r < n
    ensures c in Combo(M, x, n) <==> Dot(column, x)
  {
    if n == 0 {
      assert column == {};
      DotEmpty(x);
    } else {
      var rest := column - {n - 1};
      ComboBit(M, x, n - 1, c, rest);
      DotDrop(column, n - 1, x);
    }
  }

  /** Only the indices below n matter. */
  lemma {:induction false} ComboLow(vs: seq<Word>, a: set<nat>, b: set<nat>, n: nat)
    requires n <= |vs| && forall i | 0 <= i < n :: i in a <==> i in b
    ensures Combo(vs, a, n) == Combo(vs, b, n)
  {
    if n > 0 {
      ComboLow(vs, a, b, n - 1);
    }
  }

  /** The vectors listed in vs satisfy the non-trivial relation a. */
  predicate IsRelation(vs: seq<Word>, a: set<nat>) {
    a != {} && (forall i | i in a :: i < |vs|) && Combo(vs, a, |vs|) == {}
  }

  ghost predicate Dependent(vs: seq<Word>) {
    exists a: set<nat> :: IsRelation(vs, a)
  }

  /** rows, except that rows[p] has been added to every other row that holds bit b. */
  ghost function ClearBit(rows: seq<Word>, p: nat, b: nat): (rows': seq<Word>)
    requires p < |rows|
    ensures |rows'| == |rows|
    ensures forall q | 0 <= q < |rows| :: rows'[q] == if q != p && b in rows[q] then Xor(rows[q], rows[p]) else rows[q]
  {
    seq(|rows|, q requires 0 <= q < |rows| => if q != p && b in rows[q] then Xor(rows[q], rows[p]) else rows[q])
  }

  lemma {:induction false} ComboClearBit(rows: seq<Word>, p: nat, b: nat, a: set<nat>, n: nat)
    requires p < |rows| && n <= |rows| && p !in a
    ensures || Combo(ClearBit(rows, p, b), a, n) == Combo(rows, a, n)
            || Combo(ClearBit(rows, p, b), a, n) == Xor(Combo(rows, a, n), rows[p])
  {
    if n > 0 {
      ComboClearBit(rows, p, b, a, n - 1);
    }
  }

  /** More than r vectors of r bits each are dependent. */
  lemma {:induction false} TooManyVectors(rows: seq<Word>, s: set<nat>, r: nat) returns (a: set<nat>)
    requires forall i | i in s :: i < |rows| && forall b | b in rows[i] :: b < r
    requires |s| > r
    ensures a != {} && a <= s && Combo(rows, a, |rows|) == {}
    decreases r
  {
    if p :| p in s && r > 0 && r - 1 in rows[p] {
      var rows' := ClearBit(rows, p, r - 1);
      a := TooManyVectors(rows', s - {p}, r - 1);
      ComboClearBit(rows, p, r - 1, a, |rows|);
      if Combo(rows, a, |rows|) != {} {
        ComboXor(rows, a, {p}, |rows|);
        ComboUnit(rows, p, |rows|);
        a := Xor(a, {p});
      }
    } else if r > 0 {
      a := TooManyVectors(rows, s, r - 1);
    } else {
      var i :| i in s;
      a := {i};
      ComboUnit(rows, i, |rows|);
    }
  }

  /** Any r + 1 vectors taken from s are dependent. */
  ghost predicate RankAtMost(s: set<Word>, r: int) {
    forall vs: seq<Word> {:trigger Dependent(vs)} | |vs| > r && (forall v | v in vs :: v in s) :: Dependent(vs)
  }

  /** Some r vectors of s are independent. */
  ghost predicate RankAtLeast(s: set<Word>, r: int) {
    exists vs: seq<Word> {:trigger Dependent(vs)} :: |vs| == r && (forall v | v in vs :: v in s) && !Dependent(vs)
  }

  ghost predicate HasRank(s: set<Word>, r: int) {
    RankAtMost(s, r) && RankAtLeast(s, r)
  }

  /** The rank is unique. */
  lemma RankBounds(s: set<Word>, lo: int, hi: int)
    requires RankAtLeast(s, lo) && RankAtMost(s, hi)
    ensures lo <= hi
  {}

  lemma RankBelow(s: set<Word>, r: int, hi: int)
    requires RankAtMost(s, hi) && hi < r
    ensures !RankAtLeast(s, r)
  {}

  /** Words have rank at most 64. */
  lemma RankAtMost64(s: set<Word>)
    ensures RankAtMost(s, 64)
  {
    forall vs: seq<Word> | |vs| > 64 && forall v | v in vs :: v in s
      ensures Dependent(vs)
    {
      var a := TooManyVectors(vs, Below(|vs|), 64);
      assert IsRelation(vs, a);
    }
  }

  /** The numbers below n. */
  ghost function Below(n: nat): (s: set<nat>)
    ensures |s| == n
    ensures forall i :: i in s <==> 0 <= i < n
  {
    if n == 0 then {} else Below(n - 1) + {n - 1}
  }

  lemma {:induction false} SubsetCard<T>(a: set<T>, b: set<T>)
    requires a <= b
    ensures |a| <= |b|
  {
    if x :| x in a {
      SubsetCard(a - {x}, b - {x});
    }
  }
}
