/** Gauss-Jordan elimination with column swaps, in place on a 64 x 64w bit matrix T. */
module Echelon {
  import opened Words
  import opened Basis
  import opened Transpose

  /** Column 64l + b of T is the column C[64l + b], in the basis E: T = E * C. */
  ghost predicate Tracks(T: array2<Word>, E: seq<Word>, C: seq<Word>)
    reads T
  {
    && T.Length0 == 64 && |E| == 64 && |C| == 64 * T.Length1
    && forall r, l, b | 0 <= r < 64 && 0 <= l < T.Length1 && 0 <= b < 64 ::
         b in T[r, l] <==> Dot(E[r], C[64 * l + b])
  }

  /** transpose: bit r of the c-th word of M becomes the element of T at row r, column c. */
  method TransposeWide(M: array<Word>, w: nat, T: array2<Word>)
    requires M.Length == 64 * w && T.Length0 == 64 && T.Length1 == w
    modifies T
    ensures Tracks(T, Identity(), M[..])
  {
    for i := 0 to w
      invariant forall r, l, b | 0 <= r < 64 && 0 <= l < i && 0 <= b < 64 :: b in T[r, l] <==> r in M[64 * l + b]
    {
      var S := new Word[64](_ => {});
      Transpose64(M, i * 64, S);
      forall r, b | 0 <= r < 64 && 0 <= b < 64
        ensures b in S[r] <==> r in M[64 * i + b]
      {
        assert b in S[..][r] <==> r in M[i * 64..i * 64 + 64][b];
      }
      StoreColumn(T, i, S);
    }
    forall r, l, b | 0 <= r < 64 && 0 <= l < w && 0 <= b < 64
      ensures b in T[r, l] <==> Dot(Identity()[r], M[..][64 * l + b])
    {
      DotUnit(r, M[64 * l + b]);
    }
  }

  method StoreColumn(T: array2<Word>, i: nat, S: array<Word>)
    requires T.Length0 == 64 && i < T.Length1 && S.Length == 64
    modifies T
    ensures forall r | 0 <= r < 64 :: T[r, i] == S[r]
    ensures forall r, l | 0 <= r < 64 && 0 <= l < T.Length1 && l != i :: T[r, l] == old(T[r, l])
  {
    for j := 0 to 64
      invariant forall r | 0 <= r < j :: T[r, i] == S[r]
      invariant forall r, l | 0 <= r < 64 && 0 <= l < T.Length1 && l != i :: T[r, l] == old(T[r, l])
    {
      T[j, i] := S[j];
    }
  }

  /** The element that the exchange of columns j and 64lw + lbit puts at row r, column 64l + b. */
  ghost predicate AfterSwap(T: array2<Word>, r: nat, j: nat, lw: nat, lbit: nat, l: nat, b: nat)
    requires r < T.Length0 && lw < T.Length1 && l < T.Length1
    reads T
  {
    if l == 0 && b == j then lbit in T[r, lw]
    else if l == lw && b == lbit then j in T[r, 0]
    else b in T[r, l]
  }

  /** ((a >> j) ^ (b >> k)) & 1 */
  function Delta(a: Word, j: nat, b: Word, k: nat): (delta: Word)
    ensures delta == if (j in a) != (k in b) then {0} else {}
  {
    assert 0 in Shr(a, j) <==> j in a;
    assert 0 in Shr(b, k) <==> k in b;
    Xor(Shr(a, j), Shr(b, k)) * {0}
  }

  /** x ^ (delta << k) */
  function Toggle(x: Word, delta: Word, k: nat): (y: Word)
    requires k < 64 && (delta == {} || delta == {0})
    ensures forall i :: i in y <==> ((i in x) != (delta != {} && i == k))
  {
    Xor(x, Shl(delta, k))
  }

  /** The body of swap_columns for one row. */
  method SwapBits(T: array2<Word>, i: nat, j: nat, lw: nat, lbit: nat)
    requires i < T.Length0 && lw < T.Length1 && j < 64 && lbit < 64
    modifies T
    ensures forall l, b | 0 <= l < T.Length1 && 0 <= b < 64 :: b in T[i, l] <==> old(AfterSwap(T, i, j, lw, lbit, l, b))
    ensures forall r, l | 0 <= r < T.Length0 && 0 <= l < T.Length1 && r != i :: T[r, l] == old(T[r, l])
  {
    var delta := Delta(T[i, 0], j, T[i, lw], lbit);
    T[i, 0] := Toggle(T[i, 0], delta, j);
    T[i, lw] := Toggle(T[i, lw], delta, lbit);
  }

  method SwapColumns(T: array2<Word>, j: nat, l: nat, ghost E: seq<Word>, ghost C: seq<Word>)
    requires Tracks(T, E, C) && j < 64 && j < l < |C|
    modifies T
    ensures Tracks(T, E, C[j := C[l]][l := C[j]])
  {
    var lw := l / 64;
    var lbit := l % 64;
    for i := 0 to 64
      invariant forall r, l', b | 0 <= r < i && 0 <= l' < T.Length1 && 0 <= b < 64 ::
                  b in T[r, l'] <==> old(AfterSwap(T, r, j, lw, lbit, l', b))
      invariant forall r, l' | i <= r < 64 && 0 <= l' < T.Length1 :: T[r, l'] == old(T[r, l'])
    {
      SwapBits(T, i, j, lw, lbit);
    }
    ghost var C' := C[j := C[l]][l := C[j]];
    forall r, l', b | 0 <= r < 64 && 0 <= l' < T.Length1 && 0 <= b < 64
      ensures b in T[r, l'] <==> Dot(E[r], C'[64 * l' + b])
    {
      assert old(lbit in T[r, lw]) <==> Dot(E[r], C[64 * lw + lbit]);
      assert old(j in T[r, 0]) <==> Dot(E[r], C[64 * 0 + j]);
      assert old(b in T[r, l']) <==> Dot(E[r], C[64 * l' + b]);
    }
  }

  /** No row from j on has a one in the column v. */
  ghost predicate StaysAbove(E: seq<Word>, v: Word, j: nat)
    requires |E| == 64
  {
    forall r | r in Coords(E, v) :: r < j
  }

  /** The first j columns are the unit vectors. */
  ghost predicate Reduced(E: seq<Word>, C: seq<Word>, j: nat)
    requires |E| == 64 && j <= |C|
  {
    forall c | 0 <= c < j :: Coords(E, C[c]) == {c}
  }

  /** C lists the columns M, the first m of them in some order. */
  ghost predicate Permuted(C: seq<Word>, M: seq<Word>, m: nat) {
    |C| == |M| && m <= |M| && multiset(C[..m]) == multiset(M[..m]) && C[m..] == M[m..]
  }

  lemma PermutedSwap(C: seq<Word>, M: seq<Word>, m: nat, j: nat, l: nat)
    requires Permuted(C, M, m) && j < l < m
    ensures Permuted(C[j := C[l]][l := C[j]], M, m)
  {
    var C' := C[j := C[l]][l := C[j]];
    assert C'[..m] == C[..m][j := C[..m][l]][l := C[..m][j]];
    assert C'[m..] == C[m..];
  }

  /** Searches rows j, ..., 63 for a one in column j. */
  method FindPivot(T: array2<Word>, j: nat) returns (i: int)
    requires T.Length0 == 64 && T.Length1 > 0 && j < 64
    ensures i == -1 || j <= i < 64
    ensures i >= 0 ==> j in T[i, 0]
    ensures i == -1 ==> forall r | j <= r < 64 :: j !in T[r, 0]
  {
    i := -1;
    for k := j to 64
      invariant forall r | j <= r < k :: j !in T[r, 0]
    {
      if j in T[k, 0] {
        return k;
      }
    }
  }

  /** The search loop of echelonize for column j: as long as the column has no pivot, it is exchanged
      with another one, at random while trials remain and then one after the other. */
  method SearchPivot(T: array2<Word>, m: nat, j: nat, trials: nat, ghost E: seq<Word>, ghost C: seq<Word>,
                     ghost M: seq<Word>)
    returns (i: int, left: nat, ghost C': seq<Word>)
    requires Tracks(T, E, C) && T.Length1 > 0 && j < 64 && Permuted(C, M, m) && Reduced(E, C, j)
    modifies T
    ensures Tracks(T, E, C') && Permuted(C', M, m) && Reduced(E, C', j)
    ensures i == -1 || (j <= i < 64 && i in Coords(E, C'[j]))
    ensures i == -1 ==> forall c | j <= c < m || c == j :: StaysAbove(E, C'[c], j)
  {
    C', left := C, trials;
    var l := j + 1;
    while true
      invariant l >= j + 1 && Tracks(T, E, C') && Permuted(C', M, m) && Reduced(E, C', j)
      invariant forall c | j + 1 <= c < l && c < m :: StaysAbove(E, C'[c], j)
      decreases left, m - l
    {
      i := FindPivot(T, j);
      forall r | 0 <= r < 64
        ensures j in T[r, 0] <==> r in Coords(E, C'[j])
      {
        assert 64 * 0 + j == j;
      }
      if i >= 0 {
        return;
      }
      var o: nat;
      if left > 0 && j + 1 < m {
        o :| j + 1 <= o < m;
        left := left - 1;
      } else {
        if l >= m {
          return;
        }
        o := l;
        l := l + 1;
      }
      SwapColumns(T, j, o, E, C');
      PermutedSwap(C', M, m, j, o);
      C' := C'[j := C'[o]][o := C'[j]];
    }
  }

  method SwapRows(T: array2<Word>, i: nat, j: nat)
    requires i < T.Length0 && j < T.Length0
    modifies T
    ensures forall l | 0 <= l < T.Length1 :: T[i, l] == old(T[j, l]) && T[j, l] == old(T[i, l])
    ensures forall r, l | 0 <= r < T.Length0 && 0 <= l < T.Length1 && r != i && r != j :: T[r, l] == old(T[r, l])
  {
    for k := 0 to T.Length1
      invariant forall l | 0 <= l < k :: T[i, l] == old(T[j, l]) && T[j, l] == old(T[i, l])
      invariant forall r, l | 0 <= r < T.Length0 && k <= l < T.Length1 :: T[r, l] == old(T[r, l])
      invariant forall r, l | 0 <= r < T.Length0 && 0 <= l < T.Length1 && r != i && r != j :: T[r, l] == old(T[r, l])
    {
      T[i, k], T[j, k] := T[j, k], T[i, k];
    }
  }

  /** Permutes the rows so that the pivot is on the diagonal. */
  method MovePivot(T: array2<Word>, E: array<Word>, i: nat, j: nat, ghost C: seq<Word>)
    requires Tracks(T, E[..], C) && E.Length == 64 && i < 64 && j < 64
    modifies T, E
    ensures Tracks(T, E[..], C) && RowsSwapped(old(E[..]), E[..], i, j)
  {
    if i != j {
      E[i], E[j] := E[j], E[i];
      SwapRows(T, i, j);
    }
  }

  /** Adds the pivot row j, whose first word is given as pivot, to row k. */
  method AddRow(T: array2<Word>, k: nat, j: nat, pivot: Word)
    requires k < T.Length0 && j < T.Length0 && k != j && T.Length1 > 0
    modifies T
    ensures T[k, 0] == Xor(old(T[k, 0]), pivot)
    ensures forall l | 1 <= l < T.Length1 :: T[k, l] == Xor(old(T[k, l]), T[j, l])
    ensures forall r, l | 0 <= r < T.Length0 && 0 <= l < T.Length1 && r != k :: T[r, l] == old(T[r, l])
  {
    T[k, 0] := Xor(T[k, 0], pivot);
    for l := 1 to T.Length1
      invariant T[k, 0] == Xor(old(T[k, 0]), pivot)
      invariant forall l' | 1 <= l' < T.Length1 :: T[k, l'] == if l' < l then Xor(old(T[k, l']), T[j, l'])
        else old(T[k, l'])
      invariant forall r, l' | 0 <= r < T.Length0 && 0 <= l' < T.Length1 && r != k :: T[r, l'] == old(T[r, l'])
    {
      T[k, l] := Xor(T[k, l], T[j, l]);
    }
  }

  ghost function AddIf(x: Word, y: Word, yes: bool): Word {
    if yes then Xor(x, y) else x
  }

  /** Adds row j, whose first word is given as pivot while its bit j is hidden, to the rows ks that
      have a one in column j. */
  method ClearColumn(T: array2<Word>, E: array<Word>, j: nat, pivot: Word, ghost ks: set<nat>)
    requires T.Length0 == 64 && E.Length == 64 && T.Length1 > 0 && j < 64 && j !in ks
    requires forall r | 0 <= r < 64 :: j in T[r, 0] <==> r in ks
    modifies T, E
    ensures forall r | 0 <= r < 64 :: E[r] == AddIf(old(E[r]), old(E[j]), r in ks)
    ensures forall r | 0 <= r < 64 :: T[r, 0] == AddIf(old(T[r, 0]), pivot, r in ks)
    ensures forall r, l | 0 <= r < 64 && 1 <= l < T.Length1 :: T[r, l] == AddIf(old(T[r, l]), old(T[j, l]), r in ks)
  {
    for k := 0 to 64
      invariant forall r | 0 <= r < 64 :: E[r] == AddIf(old(E[r]), old(E[j]), r < k && r in ks)
      invariant forall r | 0 <= r < 64 :: T[r, 0] == AddIf(old(T[r, 0]), pivot, r < k && r in ks)
      invariant forall r, l | 0 <= r < 64 && 1 <= l < T.Length1 ::
                  T[r, l] == AddIf(old(T[r, l]), old(T[j, l]), r < k && r in ks)
    {
      if j in T[k, 0] {
        E[k] := Xor(E[k], E[j]);
        AddRow(T, k, j, pivot);
      }
    }
  }

  /** Uses the pivot at (j, j) to clear the rest of column j. The pivot itself is hidden meanwhile, so
      that row j is not added to itself. */
  method Eliminate(T: array2<Word>, E: array<Word>, j: nat, ghost C: seq<Word>)
    requires Tracks(T, E[..], C) && E.Length == 64 && T.Length1 > 0 && j < 64 && j in T[j, 0]
    modifies T, E
    ensures Tracks(T, E[..], C)
    ensures RowsAdded(old(E[..]), E[..], j, Coords(old(E[..]), C[j]) - {j})
  {
    ghost var ks := Coords(E[..], C[j]) - {j};
    assert 64 * 0 + j == j;
    var pivot := T[j, 0];
    T[j, 0] := Xor(T[j, 0], {j});
    ClearColumn(T, E, j, pivot, ks);
    T[j, 0] := Xor(T[j, 0], {j});
    assert T[j, 0] == pivot;
    forall r, l, b | 0 <= r < 64 && 0 <= l < T.Length1 && 0 <= b < 64
      ensures b in T[r, l] <==> Dot(E[..][r], C[64 * l + b])
    {
      DotXor(old(E[..])[r], old(E[..])[j], C[64 * l + b]);
      assert old(b in T[r, l]) <==> Dot(old(E[..])[r], C[64 * l + b]);
      assert old(b in T[j, l]) <==> Dot(old(E[..])[j], C[64 * l + b]);
      assert T[r, l] == AddIf(old(T[r, l]), old(T[j, l]), r in ks);
      assert E[r] == AddIf(old(E[r]), old(E[j]), r in ks);
    }
  }

  lemma MovePivotKeepsReduced(E: seq<Word>, E': seq<Word>, C: seq<Word>, i: nat, j: nat)
    requires |E| == 64 && RowsSwapped(E, E', i, j) && j <= i < 64 && j < |C|
    requires Reduced(E, C, j) && i in Coords(E, C[j])
    ensures Reduced(E', C, j) && j in Coords(E', C[j])
  {
    forall c | 0 <= c < j
      ensures Coords(E', C[c]) == {c}
    {
      assert c in Coords(E, C[c]) && i !in Coords(E, C[c]) && j !in Coords(E, C[c]);
      assert forall r :: r in Coords(E', C[c]) ==> r in Coords(E, C[c]);
    }
  }

  lemma EliminateExtendsReduced(E: seq<Word>, E': seq<Word>, C: seq<Word>, j: nat)
    requires |E| == 64 && j < |C| && Reduced(E, C, j) && j in Coords(E, C[j])
    requires RowsAdded(E, E', j, Coords(E, C[j]) - {j})
    ensures Reduced(E', C, j + 1)
  {
    forall c | 0 <= c < j + 1
      ensures Coords(E', C[c]) == {c}
    {
      forall r | 0 <= r < 64
        ensures Dot(Xor(E[r], E[j]), C[c]) == (Dot(E[r], C[c]) != Dot(E[j], C[c]))
      {
        DotXor(E[r], E[j], C[c]);
      }
      if c < j {
        assert j !in Coords(E, C[c]);
        assert forall r | 0 <= r < 64 :: r in Coords(E', C[c]) <==> r in Coords(E, C[c]);
      } else {
        assert forall r | 0 <= r < 64 :: r in Coords(E', C[c]) <==> r == j;
      }
    }
  }

  /** The columns past the m-th one are padding. */
  ghost predicate Padded(M: seq<Word>, m: nat) {
    m <= |M| && forall c | m <= c < |M| :: M[c] == {}
  }

  lemma PaddingHasNoCoords(E: seq<Word>)
    requires |E| == 64
    ensures Coords(E, {}) == {}
  {
    forall r | 0 <= r < 64
      ensures !Dot(E[r], {})
    {
      DotEmpty(E[r]);
    }
  }

  lemma PivotsAreColumns(E: seq<Word>, C: seq<Word>, M: seq<Word>, m: nat, j: nat)
    requires |E| == 64 && Permuted(C, M, m) && Padded(M, m) && j <= |C| && Reduced(E, C, j)
    ensures j <= m
  {
    PaddingHasNoCoords(E);
    if m < |C| {
      assert C[m] == C[m..][0] == M[m];
    }
  }

  lemma NoPivotLeft(E: seq<Word>, C: seq<Word>, M: seq<Word>, m: nat, j: nat)
    requires |E| == 64 && Permuted(C, M, m) && Padded(M, m) && j <= |C| && Reduced(E, C, j)
    requires forall c | j <= c < m :: StaysAbove(E, C[c], j)
    ensures forall c | 0 <= c < |C| :: StaysAbove(E, C[c], j)
  {
    PaddingHasNoCoords(E);
    forall c | m <= c < |C|
      ensures C[c] == {}
    {
      assert C[c] == C[m..][c - m] == M[c];
    }
  }

  method SetIdentity(E: array<Word>)
    requires E.Length == 64
    modifies E
    ensures E[..] == Identity()
  {
    for i := 0 to 64
      invariant forall r | 0 <= r < i :: E[r] == {r}
    {
      E[i] := {i};
    }
  }

  /** Brings T, whose columns are M (m of them, then padding), to the form T = E * C where C permutes
      the columns M and the first j columns of T are the unit vectors. Stopping short of d means that
      the rows from j on are zero. */
  method Echelonize(T: array2<Word>, m: nat, d: nat, E: array<Word>, ghost M: seq<Word>)
    returns (j: nat, ghost C: seq<Word>)
    requires E.Length == 64 && T.Length1 > 0 && d <= 64
    requires Tracks(T, Identity(), M) && Padded(M, m)
    modifies T, E
    ensures j <= d && j <= m && Tracks(T, E[..], C) && Permuted(C, M, m)
    ensures Nonsingular(E[..]) && Reduced(E[..], C, j)
    ensures j < d ==> forall c | 0 <= c < |C| :: StaysAbove(E[..], C[c], j)
  {
    SetIdentity(E);
    IdentityNonsingular();
    C := M;
    var trials := 6;
    j := 0;
    while j < d
      invariant j <= d && Tracks(T, E[..], C) && Permuted(C, M, m)
      invariant Nonsingular(E[..]) && Reduced(E[..], C, j)
    {
      var i;
      i, trials, C := SearchPivot(T, m, j, trials, E[..], C, M);
      if i < 0 {
        NoPivotLeft(E[..], C, M, m, j);
        break;
      }
      ghost var E0 := E[..];
      MovePivot(T, E, i, j, C);
      ghost var E1 := E[..];
      MovePivotKeepsReduced(E0, E1, C, i, j);
      assert 64 * 0 + j == j;
      Eliminate(T, E, j, C);
      EliminateExtendsReduced(E1, E[..], C, j);
      StaysNonsingular(E0, E1, E[..], i, j, Coords(E1, C[j]) - {j});
      j := j + 1;
    }
    PivotsAreColumns(E[..], C, M, m, j);
  }

  lemma StaysNonsingular(E0: seq<Word>, E1: seq<Word>, E2: seq<Word>, i: nat, j: nat, ks: set<nat>)
    requires |E0| == 64 && Nonsingular(E0) && RowsSwapped(E0, E1, i, j) && RowsAdded(E1, E2, j, ks)
    ensures Nonsingular(E2)
  {
    forall v: Word | Coords(E2, v) == {}
      ensures v == {}
    {
      RowsAddedOrthogonal(E1, E2, j, ks, v);
      RowsSwappedOrthogonal(E0, E1, i, j, v);
    }
  }
}
