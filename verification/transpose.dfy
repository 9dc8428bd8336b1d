/** The butterfly transposition of 64 x 64 bit matrices. */
module Transpose {
  import opened Words

  /** Bit k of the index i, for k a power of two. */
  predicate Has(i: nat, k: nat)
    requires k > 0
  {
    i >= k && !Has(i - k, k)
  }

  predicate IsHalf(k: nat) {
    k == 32 || k == 16 || k == 8 || k == 4 || k == 2 || k == 1
  }

  /** M1_LO ... M6_LO: the positions whose index has bit k clear. */
  function LoMask(k: nat): (m: Word)
    requires k > 0
    ensures forall i :: i in m <==> 0 <= i < 64 && !Has(i, k)
  {
    set i | 0 <= i < 64 && !Has(i, k)
  }

  /** M1_HI ... M6_HI: the positions whose index has bit k set. */
  function HiMask(k: nat): (m: Word)
    requires k > 0
    ensures forall i :: i in m <==> 0 <= i < 64 && Has(i, k)
  {
    set i | 0 <= i < 64 && Has(i, k)
  }

  /** The low-order row of a pair: (a & LO) | ((b & LO) << k). */
  function LowHalf(a: Word, b: Word, k: nat): (c: Word)
    requires k > 0
    ensures forall j | 0 <= j < 64 :: j in c <==> if Has(j, k) then j - k in b else j in a
  {
    (a * LoMask(k)) + Shl(b * LoMask(k), k)
  }

  /** The high-order row of a pair: ((a & HI) >> k) | (b & HI). */
  function HighHalf(a: Word, b: Word, k: nat): (c: Word)
    requires k > 0
    ensures forall j | 0 <= j < 64 :: j in c <==> if Has(j, k) then j in b else j + k in a
  {
    var c := Shr(a * HiMask(k), k) + (b * HiMask(k));
    assert forall j | 0 <= j < 64 :: j in c <==> if Has(j, k) then j in b else j + k in a by {
      forall j | 0 <= j < 64 && !Has(j, k) && j + k in a
        ensures j in Shr(a * HiMask(k), k)
      {
        assert Has(j + k, k) && j + k in a * HiMask(k) && j + k - k == j;
      }
      forall j | 0 <= j < 64 && Has(j, k)
        ensures j !in Shr(a * HiMask(k), k)
      {
        assert !Has(j + k, k);
      }
    }
    c
  }

  /** new is the result of one stage of width k on old: every pair of rows l, l + k is exchanged
      with its own columns. */
  ghost predicate StageRow(T: seq<Word>, row: Word, i: nat, k: nat)
    requires |T| == 64 && i < 64 && k > 0
  {
    if Has(i, k) then row == HighHalf(T[i - k], T[i], k)
    else i + k < 64 && row == LowHalf(T[i], T[i + k], k)
  }

  predicate IsMultiple(n: nat, k: nat)
    requires k > 0
  {
    n == 0 || (n >= k && IsMultiple(n - k, k))
  }

  lemma {:induction false} HasBlock(X: nat, i: nat, k: nat)
    requires k > 0 && IsMultiple(X, 2 * k) && i < 2 * k
    ensures Has(X + i, k) == (i >= k)
  {
    if X > 0 {
      HasBlock(X - 2 * k, i, k);
    }
  }

  /** Between a multiple of k below n and a multiple n of k there is room for k. */
  lemma {:induction false} BlockFits(X: nat, k: nat, n: nat)
    requires k > 0 && IsMultiple(X, k) && IsMultiple(n, k) && X < n
    ensures X + k <= n
  {
    if X > 0 {
      BlockFits(X - k, k, n - k);
    }
  }

  lemma Multiples64(k: nat)
    requires IsHalf(k)
    ensures IsMultiple(64, 2 * k)
  {
    if k == 32 { Multiples(1, 64, 64); } else if k == 16 { Multiples(2, 32, 64); }
      else if k == 8 { Multiples(4, 16, 64); }
    else if k == 4 { Multiples(8, 8, 64); } else if k == 2 { Multiples(16, 4, 64); } else { Multiples(32, 2, 64); }
  }

  lemma {:induction false} Multiples(q: nat, k: nat, n: nat)
    requires k > 0 && n == q * k
    ensures IsMultiple(n, k)
  {
    if q > 0 {
      assert n - k == (q - 1) * k;
      Multiples(q - 1, k, n - k);
    }
  }

  /** A position below 64 whose bit k is clear stays below 64 when k is added. */
  lemma {:induction false} ShiftFits(j: nat, k: nat, n: nat)
    requires k > 0 && IsMultiple(n, 2 * k) && j < n && !Has(j, k)
    ensures j + k < n
  {
    if j >= 2 * k {
      ShiftFits(j - 2 * k, k, n - 2 * k);
    }
  }

  /** One in-place stage of transpose_64. */
  method Stage(T: array<Word>, k: nat)
    requires T.Length == 64 && IsHalf(k)
    modifies T
    ensures forall i | 0 <= i < 64 :: StageRow(old(T[..]), T[i], i, k)
  {
    Multiples64(k);
    var l0 := 0;
    while l0 < 64
      invariant IsMultiple(l0, 2 * k) && l0 <= 64
      invariant forall i | 0 <= i < l0 :: StageRow(old(T[..]), T[i], i, k)
      invariant forall i | l0 <= i < 64 :: T[i] == old(T[i])
      decreases 64 - l0
    {
      BlockFits(l0, 2 * k, 64);
      forall l | l0 <= l < l0 + k
        ensures !Has(l, k)
      {
        HasBlock(l0, l - l0, k);
      }
      StageBlock(T, k, l0, old(T[..]));
      l0 := l0 + 2 * k;
    }
  }

  method StageBlock(T: array<Word>, k: nat, l0: nat, ghost T0: seq<Word>)
    requires T.Length == 64 && k > 0 && l0 + 2 * k <= 64
    requires forall l | l0 <= l < l0 + k :: !Has(l, k)
    requires |T0| == 64 && forall i | l0 <= i < 64 :: T[i] == T0[i]
    modifies T
    ensures forall i | l0 <= i < l0 + 2 * k :: StageRow(T0, T[i], i, k)
    ensures forall i | 0 <= i < l0 || l0 + 2 * k <= i < 64 :: T[i] == old(T[i])
  {
    for l := l0 to l0 + k
      invariant forall i | l0 <= i < l || l0 + k <= i < l + k :: StageRow(T0, T[i], i, k)
      invariant forall i | l <= i < l0 + k || l + k <= i < 64 :: T[i] == T0[i]
      invariant forall i | 0 <= i < l0 || l0 + 2 * k <= i < 64 :: T[i] == old(T[i])
    {
      Exchange(T, k, l, T0);
    }
  }

  method Exchange(T: array<Word>, k: nat, l: nat, ghost T0: seq<Word>)
    requires T.Length == 64 && k > 0 && l + k < 64 && !Has(l, k)
    requires |T0| == 64 && T[l] == T0[l] && T[l + k] == T0[l + k]
    modifies T
    ensures StageRow(T0, T[l], l, k) && StageRow(T0, T[l + k], l + k, k)
    ensures forall i | 0 <= i < 64 && i != l && i != l + k :: T[i] == old(T[i])
  {
    var val1 := LowHalf(T[l], T[l + k], k);
    var val2 := HighHalf(T[l], T[l + k], k);
    T[l] := val1;
    T[l + k] := val2;
  }

  /** Where a stage of width k finds the bit it puts at row i, column j. */
  function Source(i: int, j: int, k: nat): (p: (int, int))
    requires k > 0 && i >= 0 && j >= 0
  {
    if Has(i, k) == Has(j, k) then (i, j)
    else if Has(i, k) then (i - k, j + k)
    else (i + k, j - k)
  }

  /** Where the stages of width 32 down to k together find the bit they put at (i, j). */
  function Origin(i: int, j: int, k: nat): (p: (int, int))
    requires k > 0 && i >= 0 && j >= 0
    decreases 64 - k
  {
    if k >= 64 then (i, j) else
    var (i', j') := Source(i, j, k);
    Origin(i', j', 2 * k)
  }

  /** The stages of width >= k exchange the high parts Q and S of the row and column indices. */
  lemma {:induction false} OriginSwapsHighParts(Q: nat, r: nat, S: nat, t: nat, k: nat, p: (int, int))
    requires IsHalf(k) || k == 64
    requires IsMultiple(Q, k) && IsMultiple(S, k) && r < k && t < k && Q < 64 && S < 64
    requires p == Origin(Q + r, S + t, k)
    ensures p.0 == S + r && p.1 == Q + t
    decreases 64 - k
  {
    if k < 64 {
      var X, r', Y, t' := OriginSplit(Q, r, S, t, k, p);
      OriginSwapsHighParts(X, r', Y, t', 2 * k, p);
    } else {
      OriginBase(Q, r, S, t, p);
    }
  }

  lemma OriginSplit(Q: nat, r: nat, S: nat, t: nat, k: nat, p: (int, int)) returns (X: nat, r': nat, Y: nat, t': nat)
    requires 0 < k < 64 && IsMultiple(Q, k) && IsMultiple(S, k) && r < k && t < k && Q < 64 && S < 64
    requires p == Origin(Q + r, S + t, k)
    ensures IsMultiple(X, 2 * k) && IsMultiple(Y, 2 * k) && r' < 2 * k && t' < 2 * k && X < 64 && Y < 64
    ensures Y + r' == S + r && X + t' == Q + t && p == Origin(X + r', Y + t', 2 * k)
  {
    var b, c;
    X, b := SplitIndex(Q, r, k);
    Y, c := SplitIndex(S, t, k);
    r', t' := c + r, b + t;
    OriginStep(Q + r, S + t, b, c, k);
    assert Q + r + c - b == X + r' && S + t + b - c == Y + t';
  }

  lemma SplitIndex(Q: nat, r: nat, k: nat) returns (X: nat, b: nat)
    requires k > 0 && IsMultiple(Q, k) && r < k
    ensures Q == X + b && IsMultiple(X, 2 * k) && (b == 0 || b == k) && Has(Q + r, k) == (b == k)
  {
    X, b := SplitMultiple(Q, k);
    HasBlock(X, b + r, k);
    assert Q + r == X + (b + r);
  }

  lemma {:induction false} SplitMultiple(Q: nat, k: nat) returns (X: nat, b: nat)
    requires k > 0 && IsMultiple(Q, k)
    ensures Q == X + b && IsMultiple(X, 2 * k) && (b == 0 || b == k)
  {
    if Q < 2 * k {
      X, b := 0, Q;
    } else {
      X, b := SplitMultiple(Q - 2 * k, k);
      X := X + 2 * k;
    }
  }

  lemma OriginBase(Q: nat, r: nat, S: nat, t: nat, p: (int, int))
    requires IsMultiple(Q, 64) && IsMultiple(S, 64) && Q < 64 && S < 64
    requires p == Origin(Q + r, S + t, 64)
    ensures p.0 == S + r && p.1 == Q + t
  {}

  lemma OriginStep(i: nat, j: nat, b: nat, c: nat, k: nat)
    requires 0 < k < 64 && b <= i && c <= j && (b == 0 || b == k) && (c == 0 || c == k)
    requires Has(i, k) == (b == k) && Has(j, k) == (c == k)
    ensures Origin(i, j, k) == Origin(i + c - b, j + b - c, 2 * k)
  {
    assert Source(i, j, k) == (i + c - b, j + b - c);
  }

  /** T is M with its bits moved as the stages of width >= k move them. */
  ghost predicate PartlyTransposed(M: seq<Word>, T: seq<Word>, k: nat)
    requires |M| == |T| == 64 && k > 0
  {
    forall i, j | 0 <= i < 64 && 0 <= j < 64 ::
      var p := Origin(i, j, k); 0 <= p.0 < 64 && (j in T[i] <==> p.1 in M[p.0])
  }

  ghost predicate Transposed(M: seq<Word>, T: seq<Word>) {
    |M| == |T| == 64 && forall i, j | 0 <= i < 64 && 0 <= j < 64 :: j in T[i] <==> i in M[j]
  }

  lemma StageBit(T: seq<Word>, row: Word, i: nat, j: nat, k: nat)
    requires |T| == 64 && i < 64 && j < 64 && IsHalf(k)
    requires StageRow(T, row, i, k)
    ensures var p := Source(i, j, k); 0 <= p.0 < 64 && 0 <= p.1 < 64 && (j in row <==> p.1 in T[p.0])
  {
    if !Has(j, k) {
      Multiples64(k);
      ShiftFits(j, k, 64);
    }
  }

  lemma {:induction false} StageTransposes(M: seq<Word>, T: seq<Word>, T': seq<Word>, k: nat)
    requires |M| == |T| == |T'| == 64 && IsHalf(k)
    requires PartlyTransposed(M, T, 2 * k)
    requires forall i | 0 <= i < 64 :: StageRow(T, T'[i], i, k)
    ensures PartlyTransposed(M, T', k)
  {
    forall i, j | 0 <= i < 64 && 0 <= j < 64
      ensures var p := Origin(i, j, k); 0 <= p.0 < 64 && (j in T'[i] <==> p.1 in M[p.0])
    {
      StageBit(T, T'[i], i, j, k);
    }
  }

  /** The first stage, of width 32, which also copies the rows M[base..base + 64] into T. */
  method FirstStage(M: array<Word>, base: nat, T: array<Word>)
    requires T.Length == 64 && base + 64 <= M.Length && M != T
    modifies T
    ensures forall i | 0 <= i < 64 :: StageRow(M[base..base + 64], T[i], i, 32)
  {
    ghost var rows := M[base..base + 64];
    for l := 0 to 32
      invariant forall i | 0 <= i < l || 32 <= i < 32 + l :: StageRow(rows, T[i], i, 32)
    {
      assert M[base + l] == rows[l] && M[base + l + 32] == rows[l + 32];
      T[l] := LowHalf(M[base + l], M[base + l + 32], 32);
      T[l + 32] := HighHalf(M[base + l], M[base + l + 32], 32);
    }
    assert rows == M[base..base + 64];
  }

  /** transpose_64: row i of T receives column i of the 64 rows of M that start at base. */
  method Transpose64(M: array<Word>, base: nat, T: array<Word>)
    requires T.Length == 64 && base + 64 <= M.Length && M != T
    modifies T
    ensures Transposed(M[base..base + 64], T[..])
  {
    ghost var rows := M[base..base + 64];
    FirstStage(M, base, T);
    StageTransposes(rows, rows, T[..], 32);
    ghost var T1 := T[..];
    Stage(T, 16);
    StageTransposes(rows, T1, T[..], 16);
    ghost var T2 := T[..];
    Stage(T, 8);
    StageTransposes(rows, T2, T[..], 8);
    ghost var T3 := T[..];
    Stage(T, 4);
    StageTransposes(rows, T3, T[..], 4);
    ghost var T4 := T[..];
    Stage(T, 2);
    StageTransposes(rows, T4, T[..], 2);
    ghost var T5 := T[..];
    Stage(T, 1);
    StageTransposes(rows, T5, T[..], 1);
    FullyTransposed(rows, T[..]);
  }

  /** Once the stages of width 32 down to 1 are done, the whole indices have been exchanged. */
  lemma OriginOfOne(i: nat, j: nat)
    requires i < 64 && j < 64
    ensures Origin(i, j, 1) == (j, i)
  {
    MultipleOfOne(i);
    MultipleOfOne(j);
    OriginSwapsHighParts(i, 0, j, 0, 1, Origin(i, j, 1));
  }

  lemma FullyTransposed(M: seq<Word>, T: seq<Word>)
    requires |M| == |T| == 64 && PartlyTransposed(M, T, 1)
    ensures Transposed(M, T)
  {
    forall i, j | 0 <= i < 64 && 0 <= j < 64
      ensures j in T[i] <==> i in M[j]
    {
      OriginOfOne(i, j);
    }
  }

  lemma {:induction false} MultipleOfOne(n: nat)
    ensures IsMultiple(n, 1)
  {
    if n > 0 {
      MultipleOfOne(n - 1);
    }
  }
}
