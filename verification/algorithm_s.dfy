/** The main loop of the slicer. */
module AlgorithmS {
  import opened Words
  import opened Numbers
  import opened Linear
  import opened Basis
  import opened Completion
  import opened Matrix
  import opened Equations
  import opened Slices
  import opened Slicer

  /** The vectors of a slice have their k top bits at zero: bit 64 - k + i of x * M tells whether x
      violates the i-th equation. */
  lemma TopBitsAreZero(M: seq<Word>, equations: seq<Word>, k: nat, x: Word)
    requires |M| == |equations| == 64 && k <= 64
    requires forall i, r | 0 <= i < k && 0 <= r < 64 :: 64 - k + i in M[r] <==> r in equations[i]
    requires forall i | 0 <= i < k :: Satisfies(x, equations[i])
    ensures Gemv(x, M) * LeftMask(k) == {}
  {
    forall c | c in LeftMask(k)
      ensures c !in Gemv(x, M)
    {
      var i := c - (64 - k);
      assert 0 <= i < k && c == 64 - k + i;
      forall r | 0 <= r < 64
        ensures c in M[r] <==> r in equations[i]
      {
        assert 64 - k + i in M[r] <==> r in equations[i];
      }
      GemvBit(M, x, c, equations[i]);
    }
  }

  lemma SliceIsGood(vs: seq<Word>, M: seq<Word>, Minv: seq<Word>, equations: seq<Word>, k: nat, l: nat)
    requires Inverses(M, Minv) && |equations| == 64 && l <= k <= 64
    requires forall i, r | 0 <= i < k && 0 <= r < 64 :: 64 - k + i in M[r] <==> r in equations[i]
    requires forall i | 0 <= i < k :: AllSatisfy(vs, equations[i])
    ensures var s := Slice(M, Minv, k, Images(vs, M)); GoodSlice(s, l) && Originals(s) == vs
  {
    OriginalsOfImages(vs, M, Minv);
    forall i | 0 <= i < |vs|
      ensures Gemv(vs[i], M) * LeftMask(k) == {}
    {
      assert vs[i] in vs;
      TopBitsAreZero(M, equations, k, vs[i]);
    }
  }

  /** The slice that M and Minv make of the active vectors. */
  ghost function SliceOf(ws: Workspace, M: array<Word>, Minv: array<Word>, k: nat): (s: Slice)
    requires ws.act != [] && M.Length == 64
    reads ws, M, Minv
  {
    Slice(M[..], Minv[..], k, Images(ws.Active(), M[..]))
  }

  /** The state after the vectors of a slice have been chosen among m0 active ones: no vector is lost, and either none
      is rejected or enough of them are left. */
  ghost predicate Chosen(ws: Workspace, m0: nat, all: multiset<Word>, rejected: seq<Word>, l: nat, k: nat)
    reads ws, ws.nodes
  {
    // The condition is named so that the verifier does not split it.
    ws.Valid() &&
    var chosen := 0 < ws.m <= m0 && multiset(ws.Active()) + multiset(ws.Rejected()) == all
      && ((ws.m == m0 && ws.Rejected() == rejected) || (k == l && ws.m + l >= 64));
    chosen
  }

  /** The number l in the header of a slice is that of the independent equations that its vectors satisfy. */
  ghost predicate CountsEquations(s: Slice) {
    HasRank(ToSet(Originals(s)), 64 - s.l)
  }

  /** The slice s of the vectors vs has been appended to the output, which ended at `at` with the words `start`. */
  ghost predicate Appended(out: seq<Word>, start: seq<Word>, at: nat, at': nat, s: Slice, vs: seq<Word>, l: nat) {
    // The condition is named so that the verifier does not split it.
    at' == at + HEADER + |vs| <= |out| &&
    var appended :=
      Fits(s) && GoodSlice(s, l) && CountsEquations(s) && Originals(s) == vs && out[..at'] == start + SliceWords(s);
    appended
  }

  /** In each of 1000 trials some of the n words drawn add up to an equation that all the vectors satisfy. */
  ghost predicate AllBlocked(vs: seq<Word>, rand: (nat, nat) -> Word, n: nat) {
    forall t: nat | t < MAX_TRIALS :: Blocked(Drawn(rand, t, n), ToSet(vs))
  }

  /** The vectors vs, of rank 64 - k <= 64 - l, cannot be given a matrix: every trial fails. */
  ghost predicate Unlucky(vs: seq<Word>, l: nat, rand: (nat, nat) -> Word, k: nat) {
    vs != [] && l <= k <= 64 && HasRank(ToSet(vs), 64 - k) && AllBlocked(vs, rand, 64 - k)
  }

  /** The equations of a slice are padded in vain exactly if the slice is unlucky. */
  lemma FailureIsBadLuck(vs: seq<Word>, equations: seq<Word>, k: nat, l: nat, rand: (nat, nat) -> Word)
    requires vs != [] && l <= k && Determined(vs, equations, k)
    ensures AllTrialsFail(equations, k, rand) <==> Unlucky(vs, l, rand, k)
  {
    var n := 64 - k;
    EquationsHold(vs, equations, k);
    forall t: nat
      ensures TrialFails(equations, k, rand, t) <==> Blocked(Drawn(rand, t, n), ToSet(vs))
    {
      PaddingFailsIff(Drawn(rand, t, n), equations[..k], ToSet(vs));
    }
  }

  lemma EquationsHold(vs: seq<Word>, equations: seq<Word>, k: nat)
    requires Determined(vs, equations, k)
    ensures forall v, e | v in ToSet(vs) && e in equations[..k] :: !Dot(e, v)
  {
    forall v, e | v in ToSet(vs) && e in equations[..k]
      ensures !Dot(e, v)
    {
      var i :| 0 <= i < k && equations[i] == e;
      assert AllSatisfy(vs, equations[i]);
    }
  }

  /** No vectors are unlucky whatever is drawn: some words make a trial that draws them succeed. */
  lemma LuckExists(vs: seq<Word>, equations: seq<Word>, k: nat) returns (draws: seq<Word>)
    requires Determined(vs, equations, k)
    ensures |draws| == 64 - k && !Dependent(draws + equations[..k]) && !Blocked(draws, ToSet(vs))
  {
    draws := Complete(equations[..k]);
    EquationsHold(vs, equations, k);
    PaddingFailsIff(draws, equations[..k], ToSet(vs));
  }

  lemma RankOfOne(x: Word, r: int)
    requires RankAtLeast({x}, r)
    ensures r <= 1 && (r == 1 ==> x != {})
  {
    var vs: seq<Word> :| |vs| == r && (forall v | v in vs :: v in {x}) && !Dependent(vs);
    if r > 0 {
      assert vs[0] in vs;
      ComboUnit(vs, 0, |vs|);
      assert !IsRelation(vs, {0});
    }
    if r > 1 {
      assert vs[1] in vs;
      ComboUnit(vs, 1, |vs|);
      ComboXor(vs, {0}, {1}, |vs|);
      assert Xor({0}, {1}) == {0, 1};
      assert IsRelation(vs, {0, 1});
    }
  }

  lemma OnlyMember(vs: seq<Word>, x: Word)
    requires vs != [] && multiset(vs) <= multiset{x}
    ensures ToSet(vs) == {x}
  {
    assert vs[0] in multiset(vs);
    assert forall v | v in vs :: v in multiset(vs);
  }

  lemma OneDraw(draws: seq<Word>, x: Word)
    requires |draws| == 1 && Dot(draws[0], x)
    ensures !Blocked(draws, {x})
  {
    forall a: set<nat> | a != {} && forall i | i in a :: i < 1
      ensures Dot(Combo(draws, a, 1), x)
    {
      assert a == {0};
      ComboUnit(draws, 0, 1);
    }
  }

  /** The random words drawn for slice c. */
  function Draws(rand: (nat, nat, nat) -> Word, c: nat): (draws: (nat, nat) -> Word) {
    (t, i) => rand(c, t, i)
  }

  /** Chooses the vectors of a slice and computes its matrices. */
  method ChooseSlice(ws: Workspace, l: nat, rand: (nat, nat) -> Word, equations: array<Word>, M: array<Word>,
                     Minv: array<Word>)
    returns (ok: bool, k: nat)
    requires ws.Valid() && ws.m > 0 && 1 <= l <= 63
    requires equations.Length == M.Length == Minv.Length == 64 && M != Minv && M != equations && Minv != equations
    modifies ws, ws.nodes, equations, M, Minv
    ensures ws.nodes == old(ws.nodes) && k <= 64
    ensures Chosen(ws, old(ws.m), old(multiset(ws.Active()) + multiset(ws.Rejected())), old(ws.Rejected()), l, k)
    ensures ok ==> var s := SliceOf(ws, M, Minv, k); GoodSlice(s, l) && Originals(s) == ws.Active()
    ensures HasRank(ToSet(ws.Active()), 64 - k)
    ensures !ok ==> Unlucky(ws.Active(), l, rand, k)
  {
    k := ws.SliceIt(l, equations);
    FailureIsBadLuck(ws.Active(), equations[..], k, l, rand);
    ok := ws.MakeMatrices(equations, k, rand, M, Minv);
    if ok {
      SliceIsGood(ws.Active(), M[..], Minv[..], equations[..], k, l);
    }
  }

  /** Writes the slice chosen, if it has got its matrices. */
  method WriteSlice(ws: Workspace, l: nat, out: array<Word>, at: nat, M: array<Word>, Minv: array<Word>, k: nat,
                    ok: bool,
                    ghost start: seq<Word>)
    returns (at': nat, ghost s: Slice)
    requires ws.Valid() && at + HEADER + ws.m <= out.Length && ws.m < TWO_64 && start == out[..at]
    requires M.Length == Minv.Length == 64 && out != M && out != Minv && k <= 64
    requires ok ==> var s := SliceOf(ws, M, Minv, k); GoodSlice(s, l) && Originals(s) == ws.Active()
    requires HasRank(ToSet(ws.Active()), 64 - k)
    modifies out
    ensures ok ==> Appended(out[..], start, at, at', s, ws.Active(), l) && s.l == k
  {
    at' := at + HEADER + ws.m;
    s := ws.EmitSlice(out, at, M, Minv, k);
    assert out[..][..at'] == out[..at'];
  }

  method CutInto(ws: Workspace, l: nat, rand: (nat, nat) -> Word, out: array<Word>, at: nat, equations: array<Word>,
                 M: array<Word>, Minv: array<Word>,
                 ghost start: seq<Word>)
    returns (ok: bool, at': nat, ghost s: Slice, ghost k: nat)
    requires ws.Valid() && ws.m > 0 && 1 <= l <= 63
    requires at + HEADER + ws.m <= out.Length && ws.m < TWO_64 && start == out[..at]
    requires equations.Length == M.Length == Minv.Length == 64 && M != Minv && M != equations && Minv != equations
    requires out != M && out != Minv && out != equations
    modifies ws, ws.nodes, out, equations, M, Minv
    ensures ws.nodes == old(ws.nodes)
    ensures Chosen(ws, old(ws.m), old(multiset(ws.Active()) + multiset(ws.Rejected())), old(ws.Rejected()), l, k)
    ensures ok ==> Appended(out[..], start, at, at', s, ws.Active(), l) && s.l == k
    ensures !ok ==> Unlucky(ws.Active(), l, rand, k)
  {
    var count;
    ok, count := ChooseSlice(ws, l, rand, equations, M, Minv);
    k := count;
    at', s := WriteSlice(ws, l, out, at, M, Minv, count, ok, start);
  }

  /** Chooses a slice and appends it to the output, of which `at` words are used. */
  method CutSlice(ws: Workspace, l: nat, rand: (nat, nat) -> Word, out: array<Word>, at: nat, ghost start: seq<Word>)
    returns (ok: bool, at': nat, ghost s: Slice, ghost k: nat)
    requires ws.Valid() && ws.m > 0 && 1 <= l <= 63
    requires at + HEADER + ws.m <= out.Length && ws.m < TWO_64 && start == out[..at]
    modifies ws, ws.nodes, out
    ensures ws.nodes == old(ws.nodes)
    ensures Chosen(ws, old(ws.m), old(multiset(ws.Active()) + multiset(ws.Rejected())), old(ws.Rejected()), l, k)
    ensures ok ==> Appended(out[..], start, at, at', s, ws.Active(), l) && s.l == k
    ensures !ok ==> Unlucky(ws.Active(), l, rand, k)
  {
    var equations := new Word[64](_ => {});
    var M := new Word[64](_ => {});
    var Minv := new Word[64](_ => {});
    ok, at', s, k := CutInto(ws, l, rand, out, at, equations, M, Minv, start);
  }

  /** One pass: a slice of the active vectors is appended to the output, and the rejected vectors are
      left for the next pass. */
  method Pass(ws: Workspace, l: nat, rand: (nat, nat) -> Word, out: array<Word>, at: nat)
    returns (ok: bool, at': nat, ghost s: Slice)
    requires ws.Valid() && ws.m > 0 && ws.Rejected() == [] && 1 <= l <= 63
    requires at + HEADER + ws.m <= out.Length && ws.m < TWO_64
    modifies ws, ws.nodes, out
    ensures ws.nodes == old(ws.nodes)
    ensures ok ==> ws.Valid() && ws.Rejected() == []
    ensures ok ==> Fits(s) && GoodSlice(s, l) && CountsEquations(s)
    ensures ok ==> 0 < |s.CM| && |s.CM| + ws.m == old(ws.m) && (ws.m == 0 || (s.l == l && |s.CM| >= 64 - l))
    ensures ok ==> at' == at + HEADER + |s.CM| <= out.Length && out[..at'] == old(out[..at]) + SliceWords(s)
    ensures ok ==> multiset(Originals(s)) + multiset(ws.Active()) == multiset(old(ws.Active()))
    ensures !ok ==> ws.Valid() && Refused(ws.Active(), old(ws.Active()), l) && exists k ::
      Unlucky(ws.Active(), l, rand, k)
  {
    var n := ws.m;
    ghost var all := ws.Active();
    ghost var k;
    ok, at', s, k := CutSlice(ws, l, rand, out, at, out[..at]);
    Conserved(ws.Active(), ws.Rejected(), all);
    if !ok {
      AllOrEnough(ws.Active(), ws.Rejected(), all);
    } else {
      n := n - ws.m;
      ws.NextPass(n);
    }
  }

  /** The vectors chosen for a slice, out of those that were left: all of these, or enough of them. */
  ghost predicate Refused(stuck: seq<Word>, left: seq<Word>, l: nat) {
    multiset(stuck) <= multiset(left) && |stuck| <= |left| && (multiset(stuck) == multiset(left) || |stuck| + l >= 64)
  }

  lemma AllOrEnough(kept: seq<Word>, rejected: seq<Word>, all: seq<Word>)
    requires multiset(kept) + multiset(rejected) == multiset(all)
    ensures multiset(kept) <= multiset(all) && (rejected == [] ==> multiset(kept) == multiset(all))
  {
  }

  lemma Conserved(kept: seq<Word>, rejected: seq<Word>, all: seq<Word>)
    requires multiset(kept) + multiset(rejected) == multiset(all)
    ensures |kept| + |rejected| == |all|
  {
    assert |multiset(kept) + multiset(rejected)| == |kept| + |rejected|;
  }

  function MaxSlices(n: nat, l: nat): nat
    requires l <= 63
  {
    1 + n / (64 - l)
  }

  /** The number of words allocated for the output. */
  function Capacity(n: nat, l: nat): (words: nat)
    requires l <= 63
  {
    HEADER * MaxSlices(n, l) + n
  }

  lemma CapacityIs(n: nat, l: nat)
    requires l <= 63
    ensures Capacity(n, l) == 130 * (1 + n / (64 - l)) + n
  {}

  /** c slices of at least 64 - l vectors each have been made of `done` vectors out of `total`: there
      is room for one more slice. */
  lemma RoomForOneMore(c: nat, l: nat, total: nat, done: nat)
    requires l <= 63 && c * (64 - l) <= done <= total
    ensures c + 1 <= MaxSlices(total, l)
    ensures HEADER * c + done + HEADER + (total - done) <= Capacity(total, l)
  {
    var q := total / (64 - l);
    assert total < (q + 1) * (64 - l);
    if c > q {
      ProductMonotone(c, q + 1, 64 - l);
    }
  }

  lemma ProductMonotone(x: nat, y: nat, d: nat)
    requires x >= y
    ensures x * d >= y * d
  {}

  /** Slices that the checker accepts, whose headers tell how many equations their vectors satisfy. */
  ghost predicate AllGood(slices: seq<Slice>, l: nat) {
    AllFit(slices) && forall s | s in slices :: GoodSlice(s, l) && CountsEquations(s)
  }

  /** The slices, or all of them but the last one, have exactly l equations. */
  ghost predicate JustEnough(slices: seq<Slice>, l: nat, all: bool) {
    forall i | 0 <= i < |slices| && (i < |slices| - 1 || all) :: slices[i].l == l
  }

  /** The slices made so far and the vectors left make up the list L. */
  ghost predicate Progress(slices: seq<Slice>, left: seq<Word>, L: seq<Word>, l: nat)
    requires l <= 63
  {
    && AllGood(slices, l) && JustEnough(slices, l, left != [])
    && multiset(AllOriginals(slices)) + multiset(left) == multiset(L)
    && Bounded(|slices|, |left|, |L|, l)
  }

  /** c slices have been made, and `left` vectors are left out of `total`. */
  ghost predicate Bounded(c: nat, left: nat, total: nat, l: nat)
    requires l <= 63
  {
    left <= total && c <= MaxSlices(total, l) && (left > 0 ==> c * (64 - l) <= total - left)
  }

  lemma OriginalsNext(slices: seq<Slice>, s: Slice, left: seq<Word>, left': seq<Word>)
    requires multiset(Originals(s)) + multiset(left') == multiset(left)
    ensures multiset(AllOriginals(slices + [s])) + multiset(left') == multiset(AllOriginals(slices)) + multiset(left)
  {
    AllOriginalsAppend(slices, s);
  }

  lemma GoodNext(slices: seq<Slice>, s: Slice, l: nat)
    requires AllGood(slices, l) && Fits(s) && GoodSlice(s, l) && CountsEquations(s)
    ensures AllGood(slices + [s], l)
  {}

  lemma EnoughNext(slices: seq<Slice>, s: Slice, l: nat, all: bool)
    requires JustEnough(slices, l, true) && (all ==> s.l == l)
    ensures JustEnough(slices + [s], l, all)
  {}

  lemma BoundedNext(c: nat, left: nat, total: nat, l: nat, n: nat)
    requires l <= 63 && Bounded(c, left, total, l) && 0 < left && n <= left && (n == left || n >= 64 - l)
    ensures Bounded(c + 1, left - n, total, l)
  {
    RoomForOneMore(c, l, total, total - left);
    Distribute(c, 1, 64 - l);
  }

  lemma ProgressStep(slices: seq<Slice>, left: seq<Word>, s: Slice, left': seq<Word>, L: seq<Word>, l: nat)
    requires l <= 63 && Progress(slices, left, L, l) && left != []
    requires Fits(s) && GoodSlice(s, l) && CountsEquations(s)
    requires |s.CM| + |left'| == |left| && (left' == [] || (s.l == l && |s.CM| >= 64 - l))
    requires multiset(Originals(s)) + multiset(left') == multiset(left)
    ensures Progress(slices + [s], left', L, l)
    ensures FileOf(slices + [s]) == FileOf(slices) + SliceWords(s)
  {
    FileOfAppend(slices, s);
    OriginalsNext(slices, s, left, left');
    GoodNext(slices, s, l);
    EnoughNext(slices, s, l, left' != []);
    BoundedNext(|slices|, |left|, |L|, l, |s.CM|);
  }

  /** All the vectors are active, and space is allocated for the output. */
  method Setup(L: seq<Word>, l: nat) returns (ws: Workspace, out: array<Word>)
    requires l <= 63
    ensures fresh(ws) && fresh(ws.nodes) && fresh(out)
    ensures ws.Valid() && ws.Rejected() == [] && ws.m == |L|
    ensures out.Length == Capacity(|L|, l) && out[..0] == []
    ensures Progress([], ws.Active(), L, l)
  {
    ws := new Workspace();
    ws.AddAll(L);
    CapacityIs(|L|, l);
    out := new Word[130 * (1 + |L| / (64 - l)) + |L|](_ => {});
    assert |Reversed(L)| == |multiset(Reversed(L))| == |multiset(L)| == |L|;
  }

  /** The words are those of a slice file that the checker accepts for the list L, with a bounded number of slices. */
  ghost predicate IsSliceFile(words: seq<Word>, slices: seq<Slice>, L: seq<Word>, l: nat)
    requires l <= 63
  {
    && AllGood(slices, l) && JustEnough(slices, l, false) && words == FileOf(slices) && Accepted(slices, L, l)
    && |slices| <= MaxSlices(|L|, l)
  }

  /** The slicer is stuck: it has made some slices and has chosen the vectors of one more, but every trial to make a
      matrix for these fails. */
  ghost predicate IsStuck(made: seq<Slice>, stuck: seq<Word>, L: seq<Word>, l: nat, rand: (nat, nat, nat) -> Word)
    requires l <= 63
  {
    && AllGood(made, l) && JustEnough(made, l, true)
    && |made| * (64 - l) + |stuck| <= |L| && |made| < MaxSlices(|L|, l)
    && multiset(AllOriginals(made)) + multiset(stuck) <= multiset(L)
    && (multiset(AllOriginals(made)) + multiset(stuck) == multiset(L) || |stuck| + l >= 64)
    && exists k :: Unlucky(stuck, l, Draws(rand, |made|), k)
  }

  lemma StuckWith(made: seq<Slice>, left: seq<Word>, stuck: seq<Word>, L: seq<Word>, l: nat,
                  rand: (nat, nat, nat) -> Word)
    requires l <= 63 && left != [] && Progress(made, left, L, l) && Refused(stuck, left, l)
    requires exists k :: Unlucky(stuck, l, Draws(rand, |made|), k)
    ensures IsStuck(made, stuck, L, l, rand)
  {
    RoomForOneMore(|made|, l, |L|, |L| - |left|);
  }

  /** A run with one vector x is not aborted if some bit of x is what is drawn at first: there are inputs and draws for
      which the slicer must succeed. */
  lemma OneVectorIsLucky(x: Word, l: nat, rand: (nat, nat, nat) -> Word, j: nat, made: seq<Slice>, stuck: seq<Word>)
    requires l <= 63 && (x != {} ==> j in x && rand(0, 0, 0) == {j})
    ensures !IsStuck(made, stuck, [x], l, rand)
  {
    if IsStuck(made, stuck, [x], l, rand) {
      var k: nat :| Unlucky(stuck, l, Draws(rand, |made|), k);
      NoneMade(|made|, 64 - l, |stuck|);
      OnlyMember(stuck, x);
      RankOfOne(x, 64 - k);
      assert Blocked(Drawn(Draws(rand, 0), 0, 64 - k), {x});
      if k == 63 {
        DotUnit(j, x);
        OneDraw(Drawn(Draws(rand, 0), 0, 1), x);
      }
    }
  }

  lemma NoneMade(c: nat, d: nat, n: nat)
    requires d > 0 && n > 0 && c * d + n <= 1
    ensures c == 0
  {
    if c > 0 {
      ProductMonotone(c, 1, d);
    }
  }

  /** What the main loop keeps: the slices made are in the output, and they and the active vectors make up the list. */
  ghost predicate Made(ws: Workspace, out: array<Word>, size: nat, made: seq<Slice>, L: seq<Word>, l: nat)
    requires ws.Valid() && l <= 63
    reads ws, ws.nodes, out
  {
    && ws.Rejected() == [] && Progress(made, ws.Active(), L, l)
    && out.Length == Capacity(|L|, l) && size == HEADER * |made| + (|L| - ws.m) <= out.Length
    && out[..size] == FileOf(made)
  }

  /** The body of the main loop, for slice c. */
  method OneSlice(ws: Workspace, L: seq<Word>, l: nat, rand: (nat, nat, nat) -> Word, c: nat, out: array<Word>,
                  size: nat,
                  ghost made: seq<Slice>)
    returns (ok: bool, size': nat, ghost made': seq<Slice>, ghost stuck: seq<Word>)
    requires ws.Valid() && ws.m > 0 && 1 <= l <= 63 && |L| < TWO_32 && c == |made| && Made(ws, out, size, made, L, l)
    modifies ws, ws.nodes, out
    ensures ws.nodes == old(ws.nodes) && ws.Valid()
    ensures ok ==> ws.m < old(ws.m) && |made'| == |made| + 1 && Made(ws, out, size', made', L, l)
    ensures !ok ==> IsStuck(made', stuck, L, l, rand)
  {
    RoomForOneMore(c, l, |L|, |L| - ws.m);
    ghost var left := ws.Active();
    ghost var s;
    ok, size', s := Pass(ws, l, Draws(rand, c), out, size);
    made', stuck := made, ws.Active();
    if !ok {
      StuckWith(made, left, stuck, L, l, rand);
    } else {
      ProgressStep(made, left, s, ws.Active(), L, l);
      made' := made + [s];
    }
  }

  /** The slicer: for whatever random choices, the loop ends. A run is aborted only if the vectors chosen for some slice
      are unlucky with the words drawn for it; otherwise it writes, within the space allocated, a slice file that the
      checker accepts. */
  method SliceAll(L: seq<Word>, l: nat, rand: (nat, nat, nat) -> Word)
    returns (ok: bool, out: array<Word>, outputSize: nat, ghost made: seq<Slice>, ghost stuck: seq<Word>)
    requires 1 <= l <= 63 && |L| < TWO_32
    ensures out.Length == 130 * (1 + |L| / (64 - l)) + |L|
    ensures ok ==> outputSize <= out.Length && IsSliceFile(out[..outputSize], made, L, l)
    ensures ok ==> |made| <= 1 + |L| / (64 - l)
    ensures !ok ==> IsStuck(made, stuck, L, l, rand)
  {
    var n := |L|;
    var ws;
    ws, out := Setup(L, l);
    outputSize, ok := 0, true;
    made, stuck := [], [];
    var c := 0;
    while n > 0
      invariant ws.Valid() && n == ws.m && fresh(ws) && fresh(ws.nodes) && fresh(out)
      invariant c == |made| && ok && Made(ws, out, outputSize, made, L, l)
      decreases n
    {
      ok, outputSize, made, stuck := OneSlice(ws, L, l, rand, c, out, outputSize, made);
      if !ok {
        return;
      }
      n := ws.m;
      c := c + 1;
    }
    assert IsSliceFile(out[..outputSize], made, L, l);
  }
}
