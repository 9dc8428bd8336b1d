/** Products of words by a matrix, eight bits at a time, with tables filled in Gray-code order. */
module Tables {
  import opened Words
  import opened Numbers
  import opened Linear
  import opened Basis
  import opened Matrix

  /** The number of trailing zeros: ffs(j) - 1. */
  function Ctz(j: nat): (k: nat)
    requires j > 0
  {
    if j % 2 == 1 then 0 else 1 + Ctz(j / 2)
  }

  /** The bits of j ^ (j >> 1). */
  function Gray(j: nat, k: nat): (x: set<nat>)
    ensures forall i | i in x :: i < k
  {
    var b := BitsOf(j, k);
    assert forall i | i in Shr(b, 1) :: i + 1 in b by {
      forall i | i in Shr(b, 1) ensures i + 1 in b {
        ShrBit(b, 1, i);
      }
    }
    Xor(b, Shr(b, 1))
  }

  /** j ^ (j >> 1), for a byte j. */
  function GrayIndex(j: nat): (g: nat)
    ensures g < 256
  {
    assert Pow2(8) == 256;
    NumberOf(Gray(j, 8), 8)
  }

  lemma {:induction false} BitsOfHalf(n: nat, k: nat, i: nat)
    requires k > 0 && n < Pow2(k)
    ensures n / 2 < Pow2(k - 1)
    ensures i + 1 in BitsOf(n, k) <==> i in BitsOf(n / 2, k - 1)
  {
    if k > 1 {
      if n >= Pow2(k - 1) {
        BitsOfHalf(n - Pow2(k - 1), k - 1, i);
        assert (n - 2 * Pow2(k - 2)) / 2 == n / 2 - Pow2(k - 2);
      } else {
        BitsOfHalf(n, k - 1, i);
      }
    }
  }

  lemma SameParity(n: nat, p: nat)
    requires n >= 2 * p
    ensures (n - 2 * p) % 2 == n % 2
  {}

  lemma {:induction false} BitsOfParity(n: nat, k: nat)
    requires k > 0 && n < Pow2(k)
    ensures 0 in BitsOf(n, k) <==> n % 2 == 1
  {
    if k > 1 {
      if n >= Pow2(k - 1) {
        BitsOfParity(n - Pow2(k - 1), k - 1);
        SameParity(n, Pow2(k - 2));
      } else {
        BitsOfParity(n, k - 1);
      }
    }
  }

  /** Gray codes of halves. */
  lemma GrayHalf(n: nat, k: nat, i: nat)
    requires k > 0 && n < Pow2(k)
    ensures n / 2 < Pow2(k - 1)
    ensures i + 1 in Gray(n, k) <==> i in Gray(n / 2, k - 1)
    ensures 0 in Gray(n, k) <==> (n % 2 == 1) != (k > 1 && n / 2 % 2 == 1)
  {
    var b, c := BitsOf(n, k), BitsOf(n / 2, k - 1);
    BitsOfHalf(n, k, i);
    BitsOfHalf(n, k, i + 1);
    BitsOfHalf(n, k, 0);
    BitsOfParity(n, k);
    ShrBit(b, 1, i + 1);
    ShrBit(b, 1, 0);
    ShrBit(c, 1, i);
    if k > 1 {
      BitsOfParity(n / 2, k - 1);
    }
  }

  lemma GrayStepLow(j: nat, k: nat)
    requires 0 < j < Pow2(k)
    ensures 0 in Gray(j, k) <==> (0 in Gray(j - 1, k)) != (0 == Ctz(j))
  {
    GrayHalf(j, k, 0);
    GrayHalf(j - 1, k, 0);
    if j % 2 == 1 {
      assert (j - 1) / 2 == j / 2;
    } else {
      assert (j - 1) / 2 == j / 2 - 1;
    }
  }

  lemma {:induction false} GrayStepBit(j: nat, k: nat, i: nat)
    requires 0 < j < Pow2(k)
    ensures i in Gray(j, k) <==> (i in Gray(j - 1, k)) != (i == Ctz(j))
    decreases k
  {
    if i == 0 {
      GrayStepLow(j, k);
    } else {
      GrayHalf(j, k, i - 1);
      GrayHalf(j - 1, k, i - 1);
      if j % 2 == 0 {
        assert (j - 1) / 2 == j / 2 - 1;
        GrayStepBit(j / 2, k - 1, i - 1);
      } else {
        assert (j - 1) / 2 == j / 2;
      }
    }
  }

  /** Consecutive Gray codes differ in the bit that ffs selects. */
  lemma GrayStep(j: nat, k: nat)
    requires 0 < j < Pow2(k)
    ensures Ctz(j) < k && Gray(j, k) == Xor(Gray(j - 1, k), {Ctz(j)})
  {
    forall i: nat
      ensures i in Gray(j, k) <==> (i in Gray(j - 1, k)) != (i == Ctz(j))
    {
      GrayStepBit(j, k, i);
    }
    assert Ctz(j) in Gray(j, k) || Ctz(j) in Gray(j - 1, k);
  }

  /** Every set of k bits is a Gray code. */
  lemma {:induction false} Ungray(x: set<nat>, k: nat) returns (n: nat)
    requires forall i | i in x :: i < k
    ensures n < Pow2(k) && Gray(n, k) == x
    decreases k
  {
    if k == 0 {
      n := 0;
      assert x == {};
    } else {
      forall i | i in Shr(x, 1)
        ensures i < k - 1
      {
        ShrBit(x, 1, i);
      }
      var h := Ungray(Shr(x, 1), k - 1);
      n := 2 * h + if (0 in x) != (k > 1 && h % 2 == 1) then 1 else 0;
      assert n / 2 == h;
      forall i: nat
        ensures i in Gray(n, k) <==> i in x
      {
        var i' := if i > 0 then i - 1 else 0;
        GrayHalf(n, k, i');
        ShrBit(x, 1, i');
      }
    }
  }

  /** The rows lo, ..., lo + 7 selected by the bits of g. */
  ghost function Selection(M: seq<Word>, lo: nat, g: nat): (s: Word)
    requires lo + 8 <= |M|
  {
    Combo(M[lo..lo + 8], BitsOf(g, 8), 8)
  }

  /** Table i is filled for the first j Gray codes. */
  ghost predicate Filled(tables: array2<Word>, M: seq<Word>, i: nat, j: nat)
    requires tables.Length0 == 8 && tables.Length1 == 256 && |M| == 64 && i < 8
    reads tables
  {
    forall c | 0 <= c < j :: tables[i, GrayIndex(c)] == Selection(M, 8 * i, GrayIndex(c))
  }

  lemma FilledIsComplete(tables: array2<Word>, M: seq<Word>, i: nat, g: nat)
    requires tables.Length0 == 8 && tables.Length1 == 256 && |M| == 64 && i < 8 && g < 256
    requires Filled(tables, M, i, 256)
    ensures tables[i, g] == Selection(M, 8 * i, g)
  {
    assert Pow2(8) == 256;
    var c := Ungray(BitsOf(g, 8), 8);
    NumberOfBits(g, 8);
    assert GrayIndex(c) == g;
  }

  /** The sum that the loop keeps is the selection of the current Gray code. */
  lemma GraySum(M: seq<Word>, lo: nat, j: nat, tmp: Word)
    requires lo + 8 <= |M| && 0 < j < 256 && tmp == Combo(M[lo..lo + 8], Gray(j - 1, 8), 8)
    ensures Ctz(j) < 8 && Xor(tmp, M[lo + Ctz(j)]) == Combo(M[lo..lo + 8], Gray(j, 8), 8)
      == Selection(M, lo, GrayIndex(j))
  {
    assert Pow2(8) == 256;
    GrayRow(M[lo..lo + 8], j, 8, tmp);
    BitsOfNumber(Gray(j, 8), 8);
  }

  /** The next combination of the rows differs in one of them. */
  lemma GrayRow(rows: seq<Word>, j: nat, n: nat, tmp: Word)
    requires |rows| == n && 0 < j < Pow2(n) && tmp == Combo(rows, Gray(j - 1, n), n)
    ensures Ctz(j) < n && Xor(tmp, rows[Ctz(j)]) == Combo(rows, Gray(j, n), n)
  {
    GrayStep(j, n);
    ComboXor(rows, Gray(j - 1, n), {Ctz(j)}, n);
    ComboUnit(rows, Ctz(j), n);
  }

  lemma GrayZero(M: seq<Word>, lo: nat)
    requires lo + 8 <= |M|
    ensures GrayIndex(0) == 0 && Selection(M, lo, 0) == {} && Combo(M[lo..lo + 8], Gray(0, 8), 8) == {}
  {
    BitsOfZero(8);
    assert Gray(0, 8) == {};
    NumberOfLow({}, BitsOf(0, 8), 8);
    NumberOfBits(0, 8);
    ComboDisjoint(M[lo..lo + 8], {}, 8);
  }

  lemma {:induction false} BitsOfZero(k: nat)
    ensures BitsOf(0, k) == {}
  {
    if k > 0 {
      BitsOfZero(k - 1);
    }
  }

  method FillEntry(tables: array2<Word>, i: nat, j: nat, tmp: Word, ghost M: seq<Word>)
    requires tables.Length0 == 8 && tables.Length1 == 256 && i < 8 && |M| == 64
    requires Filled(tables, M, i, j) && tmp == Selection(M, 8 * i, GrayIndex(j))
    modifies tables
    ensures Filled(tables, M, i, j + 1)
    ensures forall r, c | 0 <= r < 8 && 0 <= c < 256 && r != i :: tables[r, c] == old(tables[r, c])
  {
    tables[i, GrayIndex(j)] := tmp;
  }

  /** Fills table i with the sums of the rows 8i, ..., 8i + 7 of the matrix that starts at base. */
  method FillTable(M: array<Word>, base: nat, tables: array2<Word>, i: nat, ghost rows: seq<Word>)
    requires base + 64 <= M.Length && rows == M[base..base + 64]
    requires tables.Length0 == 8 && tables.Length1 == 256 && i < 8
    modifies tables
    ensures Filled(tables, rows, i, 256)
    ensures forall r, c | 0 <= r < 8 && 0 <= c < 256 && r != i :: tables[r, c] == old(tables[r, c])
  {
    var lo := i * 8;
    GrayZero(rows, lo);
    tables[i, 0] := {};
    var tmp: Word := {};
    for j := 1 to 256
      invariant tmp == Combo(rows[lo..lo + 8], Gray(j - 1, 8), 8)
      invariant Filled(tables, rows, i, j)
      invariant forall r, c | 0 <= r < 8 && 0 <= c < 256 && r != i :: tables[r, c] == old(tables[r, c])
    {
      var k := Ctz(j);
      GraySum(rows, lo, j, tmp);
      tmp := Xor(tmp, M[base + lo + k]);
      FillEntry(tables, i, j, tmp, rows);
    }
  }

  /** matmul_init */
  method MatmulInit(M: array<Word>, base: nat, tables: array2<Word>, ghost rows: seq<Word>)
    requires base + 64 <= M.Length && rows == M[base..base + 64] && tables.Length0 == 8 && tables.Length1 == 256
    modifies tables
    ensures forall i | 0 <= i < 8 :: Filled(tables, rows, i, 256)
  {
    for i := 0 to 8
      invariant forall r | 0 <= r < i :: Filled(tables, rows, r, 256)
    {
      label before:
      FillTable(M, base, tables, i, rows);
      forall r | 0 <= r < i
        ensures Filled(tables, rows, r, 256)
      {
        assert old@before(Filled(tables, rows, r, 256));
      }
    }
  }

  /** (x >> 8i) & 255 */
  function Byte(x: Word, i: nat): (b: nat)
    ensures b < 256
  {
    assert Pow2(8) == 256;
    NumberOf(Shr(x, 8 * i), 8)
  }

  /** Rows 8i, ..., 8i + n - 1 of the product. */
  lemma {:induction false} ComboBlock(M: seq<Word>, x: set<nat>, lo: nat, n: nat)
    requires lo + n <= |M|
    ensures Combo(M, x, lo + n) == Xor(Combo(M, x, lo), Combo(M[lo..lo + n], Shr(x, lo), n))
  {
    if n > 0 {
      ComboBlock(M, x, lo, n - 1);
      ShrBit(x, lo, n - 1);
      ComboPrefix(M[lo..lo + n], M[lo..lo + (n - 1)], Shr(x, lo), n - 1);
    }
  }

  lemma ByteSelects(M: seq<Word>, x: Word, i: nat)
    requires |M| == 64 && i < 8
    ensures Combo(M, x, 8 * i + 8) == Xor(Combo(M, x, 8 * i), Selection(M, 8 * i, Byte(x, i)))
  {
    var rows := M[8 * i..8 * i + 8];
    ComboBlock(M, x, 8 * i, 8);
    var low := set b | b in Shr(x, 8 * i) && b < 8;
    NumberOfLow(Shr(x, 8 * i), low, 8);
    BitsOfNumber(low, 8);
    ComboLow(rows, Shr(x, 8 * i), low, 8);
  }

  /** gemv: the product by table look-ups is the product. */
  method TableGemv(x: Word, tables: array2<Word>, ghost M: seq<Word>) returns (r: Word)
    requires tables.Length0 == 8 && tables.Length1 == 256 && |M| == 64
    requires forall i | 0 <= i < 8 :: Filled(tables, M, i, 256)
    ensures r == Gemv(x, M)
  {
    r := {};
    for i := 0 to 8
      invariant r == Combo(M, x, 8 * i)
    {
      FilledIsComplete(tables, M, i, Byte(x, i));
      ByteSelects(M, x, i);
      r := Xor(r, tables[i, Byte(x, i)]);
    }
  }

  /** gemm */
  method Gemm(IN: array<Word>, OUT: array<Word>, n: nat, tables: array2<Word>, ghost M: seq<Word>)
    requires IN != OUT && n <= IN.Length && n <= OUT.Length && tables.Length0 == 8 && tables.Length1 == 256 && |M| == 64
    requires forall i | 0 <= i < 8 :: Filled(tables, M, i, 256)
    modifies OUT
    ensures forall i | 0 <= i < n :: OUT[i] == Gemv(IN[i], M)
  {
    for i := 0 to n
      invariant forall c | 0 <= c < i :: OUT[c] == Gemv(IN[c], M)
    {
      OUT[i] := TableGemv(IN[i], tables, M);
    }
  }
}
