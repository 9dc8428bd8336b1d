/** A machine word is modelled by the set of positions of its one-bits, so that the C operators
    `^`, `&`, `|` and `__builtin_popcountll` are symmetric difference, intersection, union and
    cardinality, and `1ull << j` is `{j}`. */
module Words {

  /** A u64. */
  type Word = x: set<nat> | forall i | i in x :: i < 64

  lemma LastSplit(vs: seq<Word>, x: Word)
    requires vs != []
    ensures multiset(vs)[x] == multiset(vs[..|vs| - 1])[x] + if vs[|vs| - 1] == x then 1 else 0
  {
    assert vs == vs[..|vs| - 1] + [vs[|vs| - 1]];
  }

  /** x ^ y */
  function Xor(x: set<nat>, y: set<nat>): (z: set<nat>)
    ensures forall i :: i in z <==> ((i in x) != (i in y))
  {
    (x - y) + (y - x)
  }

  /** x << k, the bits pushed past position 63 being lost. */
  function Shl(x: Word, k: nat): (z: Word)
    ensures forall i :: i in z <==> k <= i < 64 && i - k in x
  {
    set i | i in x && i + k < 64 :: i + k
  }

  /** x >> k */
  function Shr(x: set<nat>, k: nat): (z: set<nat>) {
    set i | i in x && k <= i :: i - k
  }

  lemma ShrBit(x: set<nat>, k: nat, i: nat)
    ensures i in Shr(x, k) <==> i + k in x
  {
    if i + k in x {
      assert i + k - k in Shr(x, k);
    }
  }

  /** The parity of popcount(e & v): the inner product of e and v over GF(2). */
  predicate Dot(e: set<nat>, v: set<nat>) {
    |e * v| % 2 == 1
  }

  lemma XorCard(x: set<nat>, y: set<nat>)
    ensures |Xor(x, y)| % 2 == (|x| + |y|) % 2
  {
    assert x == (x - y) + (x * y);
    assert y == (y - x) + (x * y);
    assert |x| == |x - y| + |x * y|;
    assert |y| == |y - x| + |x * y|;
    assert |Xor(x, y)| == |x - y| + |y - x|;
  }

  lemma XorParity(x: set<nat>, y: set<nat>)
    ensures |Xor(x, y)| % 2 == 1 <==> (|x| % 2 == 1) != (|y| % 2 == 1)
  {
    XorCard(x, y);
  }

  lemma XorMeets(a: set<nat>, b: set<nat>, v: set<nat>)
    ensures Xor(a, b) * v == Xor(a * v, b * v)
  {
  }

  /** The inner product is linear on the left. */
  lemma DotXor(a: set<nat>, b: set<nat>, v: set<nat>)
    ensures Dot(Xor(a, b), v) == (Dot(a, v) != Dot(b, v))
  {
    XorMeets(a, b, v);
    XorParity(a * v, b * v);
  }

  lemma DotSymmetric(e: set<nat>, v: set<nat>)
    ensures Dot(e, v) == Dot(v, e)
  {
    assert e * v == v * e;
  }

  /** The inner product is linear on the right. */
  lemma DotXorRight(e: set<nat>, v: set<nat>, w: set<nat>)
    ensures Dot(e, Xor(v, w)) == (Dot(e, v) != Dot(e, w))
  {
    DotSymmetric(e, Xor(v, w));
    DotXor(v, w, e);
    DotSymmetric(e, v);
    DotSymmetric(e, w);
  }

  lemma DotEmpty(v: set<nat>)
    ensures !Dot(v, {}) && !Dot({}, v)
  {
    assert v * {} == {} && {} * v == {};
  }

  lemma DotUnit(j: nat, v: set<nat>)
    ensures Dot({j}, v) == (j in v)
    ensures Dot(v, {j}) == (j in v)
  {
    assert {j} * v == if j in v then {j} else {};
    DotSymmetric({j}, v);
  }

  lemma DotDrop(e: set<nat>, j: nat, v: set<nat>)
    ensures Dot(e, v) == (Dot(e - {j}, v) != (j in e && j in v))
  {
    if j in e {
      assert e == Xor(e - {j}, {j});
      DotXor(e - {j}, {j}, v);
      DotUnit(j, v);
    } else {
      assert e - {j} == e;
    }
  }
}
