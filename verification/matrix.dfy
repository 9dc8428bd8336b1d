/** 64 x 64 matrices acting on words: products, and inversion by Gauss-Jordan elimination. */
module Matrix {
  import opened Words
  import opened Linear
  import opened Basis

  /** x * M: the sum of the rows of M selected by the bits of x. */
  function Gemv(x: Word, M: seq<Word>): (y: Word)
    requires |M| == 64
  {
    Combo(M, x, 64)
  }

  /** (u64) -((i64) bit), for a single bit. */
  function BitMask(bit: Word): (mask: Word)
    ensures forall i :: i in mask <==> 0 <= i < 64 && bit != {}
  {
    var ones := set i {:trigger Below(i)} | 0 <= i < 64;
    if bit == {} then {} else ones
  }

  /** (x >> i) & 1 */
  function BitAt(x: Word, i: nat): (bit: Word)
    ensures bit == if i in x then {0} else {}
  {
    assert 0 in Shr(x, i) <==> i in x;
    Shr(x, i) * {0}
  }

  /** M & -((x >> i) & 1) */
  function Selected(row: Word, x: Word, i: nat): (r: Word)
    ensures r == if i in x then row else {}
  {
    var bit := BitAt(x, i);
    assert row * BitMask({0}) == row && row * BitMask({}) == {};
    row * BitMask(bit)
  }

  /** naive_gemv, for the matrix whose rows start at base. */
  method NaiveGemv(x: Word, M: array<Word>, base: nat) returns (y: Word)
    requires base + 64 <= M.Length
    ensures y == Gemv(x, M[base..base + 64])
  {
    y := {};
    for i := 0 to 64
      invariant y == Combo(M[base..base + 64], x, i)
    {
      y := Xor(y, Selected(M[base + i], x, i));
    }
  }

  /** A * B is the identity. */
  ghost predicate IsLeftInverse(A: seq<Word>, B: seq<Word>) {
    |A| == |B| == 64 && forall k | 0 <= k < 64 :: Gemv(A[k], B) == {k}
  }

  ghost predicate Inverses(A: seq<Word>, B: seq<Word>) {
    IsLeftInverse(A, B) && IsLeftInverse(B, A)
  }

  /** The rows of a matrix are independent if only zero is mapped to zero. */
  lemma IndependentRows(M: seq<Word>)
    requires |M| == 64
    ensures !Dependent(M) <==> forall z: Word :: Gemv(z, M) == {} ==> z == {}
  {
    if z: Word :| Gemv(z, M) == {} && z != {} {
      assert IsRelation(M, z);
    }
    if a: set<nat> :| IsRelation(M, a) {
      var z: Word := a;
      assert Gemv(z, M) == {};
    }
  }

  /** The vectors multiplied by M; if they are the rows of a matrix, the product of two matrices. */
  ghost function Images(vs: seq<Word>, M: seq<Word>): (ws: seq<Word>)
    requires |M| == 64
    ensures |ws| == |vs| && forall i | 0 <= i < |vs| :: ws[i] == Gemv(vs[i], M)
  {
    seq(|vs|, i requires 0 <= i < |vs| => Gemv(vs[i], M))
  }

  lemma GemvXor(x: Word, y: Word, M: seq<Word>)
    requires |M| == 64
    ensures Gemv(Xor(x, y), M) == Xor(Gemv(x, M), Gemv(y, M))
  {
    ComboXor(M, x, y, 64);
  }

  /** The product is associative. */
  lemma {:induction false} GemvCombo(vs: seq<Word>, x: set<nat>, n: nat, B: seq<Word>)
    requires n <= |vs| && |B| == 64
    ensures Gemv(Combo(vs, x, n), B) == Combo(Images(vs, B), x, n)
  {
    if n == 0 {
      ComboDisjoint(B, {}, 64);
    } else {
      GemvCombo(vs, x, n - 1, B);
      GemvXor(Combo(vs, x, n - 1), vs[n - 1], B);
    }
  }

  /** Multiplying by A and then by its inverse changes nothing. */
  lemma GemvInverse(x: Word, A: seq<Word>, B: seq<Word>)
    requires IsLeftInverse(A, B)
    ensures Gemv(Gemv(x, A), B) == x
  {
    GemvCombo(A, x, 64, B);
    ComboOfUnits(Images(A, B), x, 64);
    assert (set i | i in x && i < 64) == x;
  }

  /** R is an elementary row operation: its own inverse. */
  ghost predicate IsOperation(R: seq<Word>, M: seq<Word>, M': seq<Word>) {
    |M| == |M'| == 64 && IsLeftInverse(R, R) && M' == Images(R, M)
  }

  /** Row operations preserve the dependence of the rows. */
  lemma OperationKeepsDependence(R: seq<Word>, M: seq<Word>, M': seq<Word>)
    requires IsOperation(R, M, M') && !Dependent(M')
    ensures !Dependent(M)
  {
    IndependentRows(M);
    IndependentRows(M');
    forall z: Word | Gemv(z, M) == {}
      ensures z == {}
    {
      var y := Gemv(z, R);
      GemvInverse(z, R, R);
      GemvCombo(R, y, 64, M);
      assert Gemv(y, M') == {};
      ComboDisjoint(R, {}, 64);
    }
  }

  /** An operation applied to A and to A * B keeps them in step. */
  lemma OperationCommutes(R: seq<Word>, A: seq<Word>, A': seq<Word>, B: seq<Word>)
    requires |B| == 64 && IsOperation(R, A, A')
    ensures Images(A', B) == Images(R, Images(A, B))
  {
    forall k | 0 <= k < 64
      ensures Gemv(A'[k], B) == Gemv(R[k], Images(A, B))
    {
      GemvCombo(A, R[k], 64, B);
    }
  }

  ghost function SwapOperation(i: nat, j: nat): (R: seq<Word>)
    requires i < 64 && j < 64
  {
    Identity()[i := {j}][j := {i}]
  }

  lemma SwapIsOperation(M: seq<Word>, M': seq<Word>, i: nat, j: nat)
    requires |M| == 64 && RowsSwapped(M, M', i, j)
    ensures IsOperation(SwapOperation(i, j), M, M')
  {
    var R := SwapOperation(i, j);
    forall k | 0 <= k < 64
      ensures Gemv(R[k], R) == {k} && Gemv(R[k], M) == M'[k]
    {
      var k' := if k == i then j else if k == j then i else k;
      assert R[k] == {k'};
      ComboUnit(R, k', 64);
      ComboUnit(M, k', 64);
    }
  }

  ghost function AddOperation(j: nat, ks: set<nat>): (R: seq<Word>)
    requires j < 64
    ensures |R| == 64 && forall k | 0 <= k < 64 :: R[k] == if k in ks then Xor({k}, {j}) else {k}
  {
    seq(64, k requires 0 <= k < 64 => if k in ks then Xor({k}, {j}) else {k})
  }

  lemma AddIsOperation(M: seq<Word>, M': seq<Word>, j: nat, ks: set<nat>)
    requires RowsAdded(M, M', j, ks)
    ensures IsOperation(AddOperation(j, ks), M, M')
  {
    var R := AddOperation(j, ks);
    ComboUnit(R, j, 64);
    ComboUnit(M, j, 64);
    forall k | 0 <= k < 64
      ensures Gemv(R[k], R) == {k} && Gemv(R[k], M) == M'[k]
    {
      ComboUnit(R, k, 64);
      ComboUnit(M, k, 64);
      if k in ks {
        GemvXor({k}, {j}, R);
        GemvXor({k}, {j}, M);
        assert Xor(Xor({k}, {j}), {j}) == {k};
      }
    }
  }

  /** For square matrices a left inverse is also a right inverse. */
  lemma LeftInverseIsInverse(A: seq<Word>, B: seq<Word>)
    requires IsLeftInverse(B, A) && !Dependent(A)
    ensures Inverses(A, B)
  {
    IndependentRows(A);
    forall k | 0 <= k < 64
      ensures Gemv(A[k], B) == {k}
    {
      var y := Gemv(A[k], B);
      GemvInverse(A[k], B, A);
      GemvXor(y, {k}, A);
      ComboUnit(A, k, 64);
      assert Gemv(Xor(y, {k}), A) == {};
      assert y == Xor(Xor(y, {k}), {k});
    }
  }

  /** What the elimination keeps: M = Minv * M0, and M has the kernel and the dependences of M0. */
  ghost predicate Reducing(M0: seq<Word>, M: seq<Word>, Minv: seq<Word>) {
    && |M0| == |M| == |Minv| == 64
    && Images(Minv, M0) == M
    && (forall v: Word :: Coords(M, v) == {} <==> Coords(M0, v) == {})
    && (!Dependent(M) ==> !Dependent(M0))
  }

  /** The first j columns are those of the identity. */
  ghost predicate UnitColumns(M: seq<Word>, j: nat) {
    |M| == 64 && forall c, r | 0 <= c < j && 0 <= r < 64 :: c in M[r] <==> r == c
  }

  lemma ReducingStarts(M0: seq<Word>)
    requires |M0| == 64
    ensures Reducing(M0, M0, Identity())
  {
    forall k | 0 <= k < 64
      ensures Gemv({k}, M0) == M0[k]
    {
      ComboUnit(M0, k, 64);
    }
  }

  lemma SwapKeepsReducing(M0: seq<Word>, M: seq<Word>, Minv: seq<Word>, M': seq<Word>, Minv': seq<Word>, i: nat, j: nat)
    requires Reducing(M0, M, Minv) && RowsSwapped(M, M', i, j) && RowsSwapped(Minv, Minv', i, j)
    ensures Reducing(M0, M', Minv')
  {
    var R := SwapOperation(i, j);
    SwapIsOperation(M, M', i, j);
    SwapIsOperation(Minv, Minv', i, j);
    OperationCommutes(R, Minv, Minv', M0);
    forall v: Word
      ensures Coords(M', v) == {} <==> Coords(M0, v) == {}
    {
      RowsSwappedOrthogonal(M, M', i, j, v);
    }
    if !Dependent(M') {
      OperationKeepsDependence(R, M, M');
    }
  }

  lemma AddKeepsReducing(M0: seq<Word>, M: seq<Word>, Minv: seq<Word>, M': seq<Word>, Minv': seq<Word>, j: nat,
                         ks: set<nat>)
    requires Reducing(M0, M, Minv) && RowsAdded(M, M', j, ks) && RowsAdded(Minv, Minv', j, ks)
    ensures Reducing(M0, M', Minv')
  {
    var R := AddOperation(j, ks);
    AddIsOperation(M, M', j, ks);
    AddIsOperation(Minv, Minv', j, ks);
    OperationCommutes(R, Minv, Minv', M0);
    forall v: Word
      ensures Coords(M', v) == {} <==> Coords(M0, v) == {}
    {
      RowsAddedOrthogonal(M, M', j, ks, v);
    }
    if !Dependent(M') {
      OperationKeepsDependence(R, M, M');
    }
  }

  lemma RowMissesColumn(M: seq<Word>, j: nat, r: nat, v: Word)
    requires UnitColumns(M, j) && j < 64 && r < 64 && (r >= j ==> j !in M[r])
    requires forall c :: c in v <==> c == j || (0 <= c < j && j in M[c])
    ensures !Dot(M[r], v)
  {
    if r < j && j in M[r] {
      assert M[r] * v == {j, r};
    } else {
      assert M[r] * v == {};
    }
  }

  /** A matrix with no pivot in column j sends a non-zero vector to zero. */
  lemma NoPivotIsSingular(M: seq<Word>, j: nat)
    requires UnitColumns(M, j) && j < 64
    requires forall r | j <= r < 64 :: j !in M[r]
    ensures !Nonsingular(M)
  {
    var v: Word := {j} + set c | 0 <= c < j && j in M[c];
    forall r | 0 <= r < 64
      ensures !Dot(M[r], v)
    {
      RowMissesColumn(M, j, r, v);
    }
    assert Coords(M, v) == {} && j in v;
  }

  /** The reduced matrix is the identity: the record of the operations is an inverse. */
  lemma ReducedIsInverse(M0: seq<Word>, M: seq<Word>, Minv: seq<Word>)
    requires Reducing(M0, M, Minv) && UnitColumns(M, 64)
    ensures Inverses(M0, Minv) && Nonsingular(M0)
  {
    forall r | 0 <= r < 64
      ensures M[r] == {r}
    {
    }
    assert M == Identity();
    UnitsIndependent(M);
    LeftInverseIsInverse(M0, Minv);
    IdentityNonsingular();
  }

  method PivotRow(M: array<Word>, j: nat) returns (i: int)
    requires M.Length == 64 && j < 64
    ensures i == -1 || (j <= i < 64 && j in M[i])
    ensures i == -1 ==> forall r | j <= r < 64 :: j !in M[r]
  {
    i := -1;
    for k := j to 64
      invariant forall r | j <= r < k :: j !in M[r]
    {
      if j in M[k] {
        return k;
      }
    }
  }

  method Swap(M: array<Word>, i: nat, j: nat)
    requires i < M.Length && j < M.Length
    modifies M
    ensures RowsSwapped(old(M[..]), M[..], i, j)
  {
    var tmp := M[i];
    M[i] := M[j];
    M[j] := tmp;
  }

  /** Adds row j to the other rows with a one in column j, in both matrices. */
  method ClearOthers(M: array<Word>, Minv: array<Word>, j: nat, ghost ks: set<nat>)
    requires M.Length == Minv.Length == 64 && M != Minv && j < 64
    requires ks == set r | 0 <= r < 64 && r != j && j in M[r]
    modifies M, Minv
    ensures RowsAdded(old(M[..]), M[..], j, ks) && RowsAdded(old(Minv[..]), Minv[..], j, ks)
  {
    for k := 0 to 64
      invariant forall r | 0 <= r < 64 :: M[r] == if r < k && r in ks then Xor(old(M[r]), old(M[j])) else old(M[r])
      invariant forall r | 0 <= r < 64 :: Minv[r] == if r < k && r in ks then Xor(old(Minv[r]), old(Minv[j]))
        else old(Minv[r])
    {
      if k != j && j in M[k] {
        M[k] := Xor(M[k], M[j]);
        Minv[k] := Xor(Minv[k], Minv[j]);
      }
    }
  }

  /** invert: succeeds exactly when the matrix is invertible, and then yields its two-sided inverse. */
  method Invert(M_: array<Word>, Minv: array<Word>) returns (ok: bool)
    requires M_.Length == Minv.Length == 64 && M_ != Minv
    modifies Minv
    ensures ok <==> Nonsingular(M_[..])
    ensures ok ==> Inverses(M_[..], Minv[..])
  {
    var M := new Word[64](_ => {});
    for i := 0 to 64
      invariant forall r | 0 <= r < i :: M[r] == M_[r] && Minv[r] == {r}
    {
      M[i] := M_[i];
      Minv[i] := {i};
    }
    ghost var M0 := M_[..];
    assert M[..] == M0 && Minv[..] == Identity();
    ReducingStarts(M0);
    for j := 0 to 64
      invariant Reducing(M0, M[..], Minv[..]) && UnitColumns(M[..], j)
    {
      var i := PivotRow(M, j);
      if i < 0 {
        NoPivotIsSingular(M[..], j);
        return false;
      }
      ghost var M1, Minv1 := M[..], Minv[..];
      Swap(M, i, j);
      Swap(Minv, i, j);
      ghost var M2, Minv2 := M[..], Minv[..];
      SwapKeepsReducing(M0, M1, Minv1, M2, Minv2, i, j);
      ghost var ks := set r | 0 <= r < 64 && r != j && j in M[r];
      ClearOthers(M, Minv, j, ks);
      AddKeepsReducing(M0, M2, Minv2, M[..], Minv[..], j, ks);
      ColumnCleared(M1, M2, M[..], i, j, ks);
    }
    ReducedIsInverse(M0, M[..], Minv[..]);
    return true;
  }

  lemma ColumnCleared(M1: seq<Word>, M2: seq<Word>, M3: seq<Word>, i: nat, j: nat, ks: set<nat>)
    requires UnitColumns(M1, j) && j <= i < 64 && j in M1[i] && RowsSwapped(M1, M2, i, j) && RowsAdded(M2, M3, j, ks)
    requires forall r | 0 <= r < 64 :: r in ks <==> r != j && j in M2[r]
    ensures UnitColumns(M3, j + 1)
  {}
}
