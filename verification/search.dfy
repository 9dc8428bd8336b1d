/** Rank-defect detection and the search for a low-weight equation. */
module Search {
  import opened Words
  import opened Linear
  import opened Basis
  import opened Echelon
  import opened Equations
  import opened Completion

  lemma PermutedMembers(C: seq<Word>, M: seq<Word>, m: nat)
    requires Permuted(C, M, m)
    ensures ToSet(C[..m]) == ToSet(M[..m])
  {
    forall v: Word
      ensures v in C[..m] <==> v in M[..m]
    {
      assert v in multiset(C[..m]) <==> v in multiset(M[..m]);
    }
  }

  /** The pivots found are independent columns. */
  lemma PivotsBoundRank(E: seq<Word>, C: seq<Word>, M: seq<Word>, m: nat, j: nat)
    requires |E| == 64 && Permuted(C, M, m) && j <= m && Reduced(E, C, j)
    ensures RankAtLeast(ToSet(M[..m]), j)
  {
    PermutedMembers(C, M, m);
    var vs := C[..j];
    PivotsIndependent(E, vs, seq(j, c => c));
    forall v | v in vs
      ensures v in ToSet(M[..m])
    {
      var c :| 0 <= c < j && vs[c] == v;
      assert C[..m][c] == v;
    }
  }

  /** When the elimination stops for want of a pivot, the pivots are a basis. */
  lemma DefectIsRank(E: seq<Word>, C: seq<Word>, M: seq<Word>, m: nat, j: nat)
    requires |E| == 64 && Permuted(C, M, m) && j <= m && j <= 64 && Reduced(E, C, j) && Nonsingular(E)
    requires forall c | 0 <= c < |C| :: StaysAbove(E, C[c], j)
    ensures HasRank(ToSet(M[..m]), j)
  {
    PivotsBoundRank(E, C, M, m, j);
    PermutedMembers(C, M, m);
    forall v | v in ToSet(M[..m])
      ensures StaysAbove(E, v, j)
    {
      var c :| 0 <= c < m && C[..m][c] == v;
      assert StaysAbove(E, C[c], j);
    }
    ZeroRowsBoundRank(E, ToSet(M[..m]), j);
  }

  /** A zero row of T is an equation that every vector satisfies. */
  lemma ZeroRowIsEquation(T: array2<Word>, E: seq<Word>, C: seq<Word>, M: seq<Word>, m: nat, j: nat, r: nat)
    requires Tracks(T, E, C) && Permuted(C, M, m) && j <= r < 64
    requires forall c | 0 <= c < |C| :: StaysAbove(E, C[c], j)
    ensures AllSatisfy(M[..m], E[r])
    ensures forall s | 0 <= s < T.Length1 :: T[r, s] == {}
  {
    PermutedMembers(C, M, m);
    forall v | v in M[..m]
      ensures Satisfies(v, E[r])
    {
      assert v in ToSet(M[..m]);
      var c :| 0 <= c < m && C[..m][c] == v;
      assert StaysAbove(E, C[c], j) && r !in Coords(E, C[c]);
    }
    forall s, b | 0 <= s < T.Length1 && 0 <= b < 64
      ensures b !in T[r, s]
    {
      assert StaysAbove(E, C[64 * s + b], j) && r !in Coords(E, C[64 * s + b]);
    }
  }

  /** ceil(m / 64.): the number of words in a row of m bits. */
  function WordsFor(m: nat): (w: nat)
    ensures m <= 64 * w < m + 64
  {
    (m + 63) / 64
  }

  /** Appends the zero rows from j on to the equations held. */
  method FreeEquations(T: array2<Word>, E: array<Word>, j: nat, d: nat, equations: array<Word>, k: nat,
                       ghost C: seq<Word>, ghost M: seq<Word>, ghost m: nat)
    returns (k': nat)
    requires Tracks(T, E[..], C) && Permuted(C, M, m) && j < d <= 64 && d == 64 - k
    requires E.Length == equations.Length == 64 && E != equations
    requires forall c | 0 <= c < |C| :: StaysAbove(E[..], C[c], j)
    requires forall i | 0 <= i < k :: AllSatisfy(M[..m], equations[i])
    modifies equations
    ensures k' == 64 - j && equations[k..k'] == E[j..d]
    ensures forall i | 0 <= i < k' :: AllSatisfy(M[..m], equations[i])
    ensures forall i | 0 <= i < k :: equations[i] == old(equations[i])
  {
    k' := k;
    for r := j to d
      invariant k' == k + (r - j) && forall i | j <= i < r :: equations[k + i - j] == E[i]
      invariant forall i | 0 <= i < k' :: AllSatisfy(M[..m], equations[i])
      invariant forall i | 0 <= i < k :: equations[i] == old(equations[i])
    {
      ZeroRowIsEquation(T, E[..], C, M, m, j, r);
      for s := 0 to T.Length1 {
        assert T[r, s] == {};
      }
      equations[k'] := E[r];
      k' := k' + 1;
    }
  }

  lemma FreeEquationsIndependent(E: seq<Word>, j: nat)
    requires |E| == 64 && Nonsingular(E) && j <= 64
    ensures !Dependent(E[j..])
  {
    NonsingularIsIndependent(E);
    assert E == E[..j] + E[j..];
    PartIndependent(E[..j], E[j..]);
  }

  lemma NoneIndependent(equations: seq<Word>)
    ensures !Dependent(equations[..0])
  {}

  /** If the columns of M have rank below 64 - k, finds more equations that they all satisfy. On
      return there are exactly as many equations as the rank falls short of 64. If the rank was 64 - k
      there is nothing to find; if there were no equations at first, those found are independent. */
  method CheckRankDefect(M: array<Word>, m: nat, equations: array<Word>, k: nat) returns (k': nat)
    requires equations.Length == 64 && k <= 64 && M != equations
    requires 0 < m && M.Length == 64 * WordsFor(m) && Padded(M[..], m)
    requires RankAtMost(ToSet(M[..m]), 64 - k)
    requires forall i | 0 <= i < k :: AllSatisfy(M[..m], equations[i])
    modifies equations
    ensures k <= k' <= 64 && 64 - k' <= m
    ensures HasRank(ToSet(M[..m]), 64 - k')
    ensures forall i | 0 <= i < k' :: AllSatisfy(M[..m], equations[i])
    ensures forall i | 0 <= i < k :: equations[i] == old(equations[i])
    ensures RankAtLeast(ToSet(M[..m]), 64 - k) ==> k' == k
    ensures k == 0 ==> !Dependent(equations[..k'])
  {
    var w := WordsFor(m);
    var E := new Word[64](_ => {});
    var T := new Word[64, w]((_, _) => {});
    var d := 64 - k;
    ghost var M0 := M[..];
    TransposeWide(M, w, T);
    var j;
    ghost var C;
    j, C := Echelonize(T, m, d, E, M0);
    PivotsBoundRank(E[..], C, M0, m, j);
    assert M0[..m] == M[..m];
    if j == d {
      NoneIndependent(equations[..]);
      return k;
    }
    DefectIsRank(E[..], C, M0, m, j);
    RankBelow(ToSet(M[..m]), 64 - k, j);
    k' := FreeEquations(T, E, j, d, equations, k, C, M0, m);
    FreeEquationsIndependent(E[..], j);
    assert k == 0 ==> equations[..k'] == E[..][j..];
  }

  /** The low n bits of a word of row r are the violations of E[r] among n columns. */
  lemma {:induction false} WordWeight(x: Word, e: Word, vs: seq<Word>)
    requires |vs| <= 64
    requires forall b | 0 <= b < |vs| :: b in x <==> Dot(e, vs[b])
    ensures |(set b | b in x && b < |vs|)| == |Violating(vs, e)|
  {
    if vs == [] {
      assert (set b | b in x && b < 0) == {};
    } else {
      WordWeight(x, e, vs[..|vs| - 1]);
      OneMoreBit(x, |vs| - 1);
    }
  }

  lemma OneMoreBit(x: Word, n: nat)
    ensures |(set b | b in x && b < n + 1)| == |(set b | b in x && b < n)| + if n in x then 1 else 0
  {
    var low, lower := set b | b in x && b < n + 1, set b | b in x && b < n;
    if n in x {
      assert low == lower + {n};
    } else {
      assert low == lower;
    }
  }

  lemma WeightStep(x: Word, e: Word, C: seq<Word>, base: nat)
    requires base + 64 <= |C|
    requires forall b | 0 <= b < 64 :: b in x <==> Dot(e, C[base + b])
    ensures |Violating(C[..base + 64], e)| == |Violating(C[..base], e)| + |x|
  {
    var vs := C[base..base + 64];
    assert C[..base + 64] == C[..base] + vs;
    ViolatingConcat(C[..base], vs, e);
    WordWeight(x, e, vs);
    assert (set b | b in x && b < 64) == x;
  }

  /** The weight of row i is the number of columns that violate the equation E[i]. */
  method RowWeight(T: array2<Word>, i: nat, ghost E: seq<Word>, ghost C: seq<Word>) returns (weight: nat)
    requires Tracks(T, E, C) && i < 64
    ensures weight == |Violating(C, E[i])|
  {
    weight := 0;
    for l := 0 to T.Length1
      invariant weight == |Violating(C[..64 * l], E[i])|
    {
      WeightStep(T[i, l], E[i], C, 64 * l);
      weight := weight + |T[i, l]|;
    }
    assert C[..64 * T.Length1] == C;
  }

  /** Padding does not count, nor does the order of the columns. */
  lemma WeightOfRow(C: seq<Word>, M: seq<Word>, m: nat, e: Word)
    requires Permuted(C, M, m) && Padded(M, m)
    ensures |Violating(C, e)| == |Violating(M[..m], e)| == |Violating(C[..m], e)|
  {
    assert C == C[..m] + C[m..];
    ViolatingConcat(C[..m], C[m..], e);
    DotEmpty(e);
    NoneViolating(C[m..], e);
    ViolationsOfPermutation(C[..m], M[..m], e);
  }

  /** Row i of a matrix with d unit columns has at least one 1 and at most m - d + 1 of them. */
  lemma PivotRowWeight(E: seq<Word>, C: seq<Word>, m: nat, d: nat, i: nat)
    requires |E| == 64 && d <= m <= |C| && d <= 64 && Reduced(E, C, d) && i < d
    ensures 1 <= |Violating(C[..m], E[i])| <= m - d + 1
  {
    assert i in Coords(E, C[i]) && C[..m][i] == C[i];
    SomeViolating(C[..m], E[i], C[i]);
    OnePivotViolates(E, C, d, i);
    assert C[..m] == C[..d] + C[d..m];
    ViolatingConcat(C[..d], C[d..m], E[i]);
    FilterConserves(C[d..m], E[i]);
  }

  lemma OnePivotViolates(E: seq<Word>, C: seq<Word>, d: nat, i: nat)
    requires |E| == 64 && d <= |C| && d <= 64 && Reduced(E, C, d) && i < d
    ensures |Violating(C[..d], E[i])| <= 1
  {
    forall c | 0 <= c < d && c != i
      ensures Satisfies(C[..d][c], E[i])
    {
      assert i !in Coords(E, C[c]);
    }
    AtMostOneViolating(C[..d], E[i], i);
  }

  /** swap(M, i, i + rand() % (m - i)) for each i below d. */
  method PermuteRows(M: array<Word>, m: nat, d: nat)
    requires d <= m <= M.Length
    modifies M
    ensures multiset(M[..m]) == multiset(old(M[..m])) && M[m..] == old(M[m..])
  {
    for i := 0 to d
      invariant multiset(M[..m]) == multiset(old(M[..m])) && M[m..] == old(M[m..])
    {
      var j :| i <= j < m;
      SwapEntries(M, m, i, j);
    }
  }

  method SwapEntries(M: array<Word>, ghost m: nat, i: nat, j: nat)
    requires i <= j < m <= M.Length
    modifies M
    ensures multiset(M[..m]) == multiset(old(M[..m])) && M[m..] == old(M[m..])
  {
    M[i], M[j] := M[j], M[i];
    assert M[..m] == old(M[..m])[i := old(M[j])][j := old(M[i])];
  }

  /** A non-zero weight, and an equation of that weight among the vectors. The vectors that satisfy it still
      have rank d - 1. */
  ghost predicate IsEquationOfWeight(vs: seq<Word>, d: nat, equation: Word, weight: nat) {
    && weight == |Violating(vs, equation)| && 1 <= weight <= |vs| - d + 1
    && RankAtLeast(ToSet(Satisfying(vs, equation)), d - 1)
  }

  /** The other d - 1 pivot columns satisfy the equation of a pivot row. */
  lemma PivotRowKeepsRank(E: seq<Word>, C: seq<Word>, vs: seq<Word>, m: nat, d: nat, i: nat)
    requires |E| == 64 && d <= m <= |C| && d <= 64 && Reduced(E, C, d) && i < d
    requires multiset(C[..m]) == multiset(vs)
    ensures RankAtLeast(ToSet(Satisfying(vs, E[i])), d - 1)
  {
    var at := seq(d - 1, c requires 0 <= c < d - 1 => if c < i then c else c + 1);
    var us := seq(d - 1, c requires 0 <= c < d - 1 => C[at[c]]);
    PivotsIndependent(E, us, at);
    SameMembers(C[..m], vs);
    SatisfyingMembers(vs, E[i]);
    forall u | u in us
      ensures u in ToSet(Satisfying(vs, E[i]))
    {
      var c :| 0 <= c < d - 1 && us[c] == u;
      assert C[..m][at[c]] == u && u in ToSet(C[..m]);
      assert i !in Coords(E, u);
    }
  }

  /** One iteration of the Lee-Brickell algorithm: after a random permutation of the vectors, the
      equations of an echelonized basis are compared with the best one so far. */
  method LeeBrickell(M: array<Word>, m: nat, d: nat, bestWeight: nat, bestEquation: Word, ghost vs: seq<Word>)
    returns (weight: nat, equation: Word, ghost rows: seq<Word>)
    requires 2 <= d <= 64 && d <= m && M.Length == 64 * WordsFor(m) && Padded(M[..], m)
    requires |vs| == m && multiset(M[..m]) == multiset(vs) && HasRank(ToSet(vs), d)
    requires bestWeight == m || IsEquationOfWeight(vs, d, bestEquation, bestWeight)
    modifies M
    ensures Padded(M[..], m) && multiset(M[..m]) == multiset(vs)
    ensures IsEquationOfWeight(vs, d, equation, weight)
    ensures |rows| == 64 && Nonsingular(rows) && weight <= bestWeight
    ensures forall i | 0 <= i < d :: weight <= |Violating(vs, rows[i])|
  {
    var T, E;
    ghost var C, M0;
    T, E, C, M0 := RandomBasis(M, m, d, vs);
    rows := E[..];
    weight, equation := LightestRow(T, E, m, d, bestWeight, bestEquation, C, M0, vs, rows);
  }

  /** The vectors are permuted, and d of them made the unit vectors. No pivot is missing. */
  method RandomBasis(M: array<Word>, m: nat, d: nat, ghost vs: seq<Word>)
    returns (T: array2<Word>, E: array<Word>, ghost C: seq<Word>, ghost M0: seq<Word>)
    requires 2 <= d <= 64 && d <= m && M.Length == 64 * WordsFor(m) && Padded(M[..], m)
    requires |vs| == m && multiset(M[..m]) == multiset(vs) && HasRank(ToSet(vs), d)
    modifies M
    ensures M0 == M[..] && Padded(M0, m) && multiset(M0[..m]) == multiset(vs)
    ensures fresh(T) && fresh(E) && E.Length == 64 && Tracks(T, E[..], C) && Permuted(C, M0, m)
    ensures Reduced(E[..], C, d) && Nonsingular(E[..])
  {
    var w := WordsFor(m);
    E := new Word[64](_ => {});
    T := new Word[64, w]((_, _) => {});
    PermuteRows(M, m, d);
    assert forall c | m <= c < M.Length :: M[c] == M[m..][c - m];
    TransposeWide(M, w, T);
    M0 := M[..];
    assert M0[..m] == M[..m];
    var j;
    j, C := Echelonize(T, m, d, E, M0);
    SameMembers(M0[..m], vs);
    if j < d {
      DefectIsRank(E[..], C, M0, m, j);
      RankBounds(ToSet(vs), d, j);
    }
    assert j == d;
  }

  lemma SameMembers(vs: seq<Word>, ws: seq<Word>)
    requires multiset(vs) == multiset(ws)
    ensures ToSet(vs) == ToSet(ws)
  {
    forall v: Word
      ensures v in vs <==> v in ws
    {
      assert v in multiset(vs) <==> v in multiset(ws);
    }
  }

  lemma RowIsCandidate(C: seq<Word>, M: seq<Word>, m: nat, vs: seq<Word>, d: nat, rows: seq<Word>, i: nat)
    requires |rows| == 64 && Permuted(C, M, m) && Padded(M, m) && i < d <= m && d <= 64 && Reduced(rows, C, d)
    requires |vs| == m && multiset(M[..m]) == multiset(vs)
    ensures |Violating(C, rows[i])| == |Violating(vs, rows[i])|
    ensures IsEquationOfWeight(vs, d, rows[i], |Violating(vs, rows[i])|)
  {
    WeightOfRow(C, M, m, rows[i]);
    ViolationsOfPermutation(M[..m], vs, rows[i]);
    PivotRowWeight(rows, C, m, d, i);
    PivotRowKeepsRank(rows, C, vs, m, d, i);
  }

  method LightestRow(T: array2<Word>, E: array<Word>, m: nat, d: nat, bestWeight: nat, bestEquation: Word,
                     ghost C: seq<Word>, ghost M: seq<Word>, ghost vs: seq<Word>, ghost rows: seq<Word>)
    returns (weight: nat, equation: Word)
    requires E.Length == 64 && rows == E[..] && Tracks(T, rows, C) && Permuted(C, M, m) && Padded(M, m)
    requires 2 <= d <= m && d <= 64 && Reduced(rows, C, d) && |vs| == m && multiset(M[..m]) == multiset(vs)
    requires bestWeight == m || IsEquationOfWeight(vs, d, bestEquation, bestWeight)
    ensures IsEquationOfWeight(vs, d, equation, weight)
    ensures weight <= bestWeight && forall i | 0 <= i < d :: weight <= |Violating(vs, rows[i])|
  {
    weight, equation := bestWeight, bestEquation;
    for i := 0 to d
      invariant (i == 0 && weight == m) || IsEquationOfWeight(vs, d, equation, weight)
      invariant weight <= bestWeight && forall r | 0 <= r < i :: weight <= |Violating(vs, rows[r])|
    {
      var row := RowWeight(T, i, rows, C);
      RowIsCandidate(C, M, m, vs, d, rows, i);
      if row < weight {
        weight := row;
        equation := E[i];
      }
    }
  }

  /** The search loop of slice_it: iterations until the clock or a light enough equation stops it,
      both of which are arbitrary here, but one iteration at least. */
  method PickEquation(M: array<Word>, m: nat, d: nat, ghost vs: seq<Word>) returns (equation: Word, ghost weight: nat)
    requires 2 <= d <= 64 && d <= m && M.Length == 64 * WordsFor(m) && Padded(M[..], m)
    requires |vs| == m && multiset(M[..m]) == multiset(vs) && HasRank(ToSet(vs), d)
    modifies M
    ensures IsEquationOfWeight(vs, d, equation, weight)
  {
    var bestWeight := m;
    var bestEquation: Word := {};
    var bound :| bound >= 0;
    var it := 0;
    while it == 0 || it < bound
      invariant Padded(M[..], m) && multiset(M[..m]) == multiset(vs)
      invariant it <= bound + 1
      invariant (it == 0 && bestWeight == m) || IsEquationOfWeight(vs, d, bestEquation, bestWeight)
      decreases bound + 1 - it
    {
      it := it + 1;
      ghost var rows;
      bestWeight, bestEquation, rows := LeeBrickell(M, m, d, bestWeight, bestEquation, vs);
      if * {
        break;
      }
    }
    return bestEquation, bestWeight;
  }

  /** What filtering by the equation found does to the active vectors: the rank drops by exactly one. */
  lemma FilterProgress(vs: seq<Word>, equation: Word, weight: nat, d: nat)
    requires 1 <= d <= |vs| && RankAtMost(ToSet(vs), d) && IsEquationOfWeight(vs, d, equation, weight)
    ensures var kept := Satisfying(vs, equation);
            |kept| == |vs| - weight && |kept| >= d - 1
            && HasRank(ToSet(kept), d - 1) && AllSatisfy(kept, equation) && forall v | v in kept :: v in vs
  {
    var kept := Satisfying(vs, equation);
    FilterConserves(vs, equation);
    SatisfyingMembers(vs, equation);
    var bad := Violating(vs, equation)[0];
    ViolatingMultiset(vs, equation, bad);
    assert bad in multiset(Violating(vs, equation)) && bad in ToSet(vs) && Dot(equation, bad);
    FilterDropsRank(ToSet(vs), ToSet(kept), equation, d);
  }
}
