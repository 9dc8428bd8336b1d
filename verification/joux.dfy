/** Algorithms G and J: the iterated join of two lists with a file of slices. */
module Joux {
  import opened Words
  import opened Numbers
  import opened Matrix
  import opened Tables
  import opened Slices
  import opened HashTables
  import opened ZeroLookup
  import opened Subjoin
  import opened Partition
  import opened JoinTheory

  /** struct task_result_t. The array of solutions grows as needed. */
  class TaskResult {
    var capacity: nat
    var solutions: seq<Triple>

    constructor ()
      ensures solutions == []
    {
      capacity := 128;
      solutions := [];
    }

    method Report(solution: Triple)
      modifies this
      ensures solutions == old(solutions) + [solution]
    {
      if |solutions| == capacity {
        capacity := 2 * capacity;
      }
      solutions := solutions + [solution];
    }
  }

  /** The triples whose sum the table finds. */
  ghost function Confirmed(ts: seq<Triple>, H: seq<Word>, bad: bool): (r: seq<Triple>)
    requires |H| == 512
  {
    if ts == [] then [] else
    var n := |ts| - 1;
    Confirmed(ts[..n], H, bad) + if Answers(H, bad, ts[n].z) then [ts[n]] else []
  }

  lemma {:induction false} ConfirmedCount(ts: seq<Triple>, H: seq<Word>, bad: bool, t: Triple)
    requires |H| == 512
    ensures multiset(Confirmed(ts, H, bad))[t] == if Answers(H, bad, t.z) then multiset(ts)[t] else 0
  {
    if ts != [] {
      var n := |ts| - 1;
      ConfirmedCount(ts[..n], H, bad, t);
      assert ts == ts[..n] + [ts[n]];
    }
  }

  /** checkup: reports the preselected triples whose sum is in the table. */
  method Checkup(result: TaskResult, preselected: seq<Triple>, H: array<Word>, bad: bool)
    requires H.Length == 512 && Ready(H[..], bad)
    modifies result
    ensures result.solutions == old(result.solutions) + Confirmed(preselected, H[..], bad)
  {
    ghost var table := H[..];
    assert old(result.solutions) + [] == old(result.solutions);
    for i := 0 to |preselected|
      invariant table == H[..]
      invariant result.solutions == old(result.solutions) + Confirmed(preselected[..i], table, bad)
    {
      var found;
      if bad {
        found := LinearLookup(H, preselected[i].z);
      } else {
        found := CuckooLookup(H[..], preselected[i].z);
      }
      assert preselected[..i + 1][..i] == preselected[..i];
      if found {
        result.Report(preselected[i]);
      }
    }
    assert preselected[..|preselected|] == preselected;
  }

  /** The triples of all the threads. */
  ghost function All(pre: seq<seq<Triple>>): (m: multiset<Triple>) {
    if pre == [] then multiset{} else All(pre[..|pre| - 1]) + multiset(pre[|pre| - 1])
  }

  lemma {:induction false} AllUpdate(pre: seq<seq<Triple>>, t: nat, more: seq<Triple>)
    requires t < |pre|
    ensures All(pre[t := pre[t] + more]) == All(pre) + multiset(more)
  {
    var n := |pre| - 1;
    var pre' := pre[t := pre[t] + more];
    if t == n {
      assert pre'[..n] == pre[..n];
    } else {
      AllUpdate(pre[..n], t, more);
      assert pre'[..n] == pre[..n][t := pre[..n][t] + more];
    }
  }

  lemma {:induction false} AllEmpty(n: nat)
    ensures All(seq(n, _ => [])) == multiset{}
  {
    if n > 0 {
      AllEmpty(n - 1);
      assert seq<seq<Triple>>(n, _ => [])[..n - 1] == seq(n - 1, _ => []);
    }
  }

  /** What a multiset of triples holds once the partitions with keys below i are joined. */
  ghost predicate JoinedBelow(all: multiset<Triple>, A: seq<Word>, B: seq<Word>, l: nat, p: nat, i: nat)
    requires p <= l <= 64
  {
    forall t: Triple :: all[t] == if Key(t.x, p) < i then Pairs(t, A, B, l) else 0
  }

  /** One subjoin: the partitions with key i of both sides. */
  method SubjoinPartition(side0: Side, side1: Side, l: nat, i: nat, ghost A: seq<Word>, ghost B: seq<Word>,
                          ghost sh0: seq<Window>, ghost sh1: seq<Window>)
    returns (out: seq<Triple>)
    requires side0.Partitioned(A, sh0) && side1.Partitioned(B, sh1) && side0.p == side1.p <= l <= 64
    requires i < Pow2(side0.p) && HasRoom(WithKey(A, i, side0.p))
    ensures IsJoin(out, WithKey(A, i, side0.p), WithKey(B, i, side0.p), l)
  {
    var wa := side0.Windows(i, A, sh0);
    var wb := side1.Windows(i, B, sh1);
    out := Join(l, side0.scratch, wa, side1.scratch, wb, side0.scratch[..], side1.scratch[..]);
  }

  /** The subjoins, each done by an arbitrary thread. Together they are the join of the two lists. */
  method SubjoinAll(side0: Side, side1: Side, l: nat, owner: seq<nat>, threads: nat, ghost A: seq<Word>,
                    ghost B: seq<Word>, ghost sh0: seq<Window>, ghost sh1: seq<Window>)
    returns (pre: seq<seq<Triple>>)
    requires side0.Partitioned(A, sh0) && side1.Partitioned(B, sh1) && side0.p == side1.p <= l <= 64
    requires |owner| == Pow2(side0.p) && forall i | 0 <= i < |owner| :: owner[i] < threads
    requires forall i | 0 <= i < Pow2(side0.p) :: HasRoom(WithKey(A, i, side0.p))
    ensures |pre| == threads && IsWholeJoin(All(pre), A, B, l)
  {
    ghost var p := side0.p;
    pre := seq(threads, _ => []);
    AllEmpty(threads);
    for i := 0 to |owner|
      invariant side0.Partitioned(A, sh0) && side1.Partitioned(B, sh1) && |pre| == threads
      invariant JoinedBelow(All(pre), A, B, l, p, i)
    {
      var out := SubjoinPartition(side0, side1, l, i, A, B, sh0, sh1);
      AllUpdate(pre, owner[i], out);
      JoinBelowStep(All(pre), out, A, B, l, p, i);
      pre := pre[owner[i] := pre[owner[i]] + out];
    }
  }

  ghost predicate IsWholeJoin(all: multiset<Triple>, A: seq<Word>, B: seq<Word>, l: nat)
    requires l <= 64
  {
    forall t: Triple :: all[t] == Pairs(t, A, B, l)
  }

  /** The preselected triples of all the threads are checked. */
  method CheckAll(result: TaskResult, pre: seq<seq<Triple>>, H: array<Word>, bad: bool)
    requires H.Length == 512 && Ready(H[..], bad) && result.solutions == []
    modifies result
    ensures forall t: Triple :: multiset(result.solutions)[t] == if Answers(H[..], bad, t.z) then All(pre)[t] else 0
  {
    ghost var table := H[..];
    for tid := 0 to |pre|
      invariant table == H[..]
      invariant forall t: Triple :: multiset(result.solutions)[t] == if Answers(table, bad, t.z)
        then All(pre[..tid])[t] else 0
    {
      ghost var before := result.solutions;
      Checkup(result, pre[tid], H, bad);
      assert pre[..tid + 1][..tid] == pre[..tid];
      forall t: Triple
        ensures multiset(result.solutions)[t] == if Answers(table, bad, t.z) then All(pre[..tid + 1])[t] else 0
      {
        ConfirmedCount(pre[tid], table, bad, t);
        assert multiset(before + Confirmed(pre[tid], table, bad))[t] == multiset(before)[t]
          + multiset(Confirmed(pre[tid], table, bad))[t];
      }
    }
    assert pre[..|pre|] == pre;
  }

  /** The solutions are expressed in the original basis again. */
  method Lift(found: TaskResult, result: TaskResult, file: array<Word>, base: nat, ghost Minv: seq<Word>)
    requires found != result && base + 64 <= file.Length && Minv == file[base..base + 64]
    modifies result
    ensures result.solutions == old(result.solutions) + ImagesOf(found.solutions, Minv)
  {
    var n := |found.solutions|;
    ghost var ts := found.solutions;
    for i := 0 to n
      invariant ts == found.solutions
      invariant result.solutions == old(result.solutions) + ImagesOf(ts[..i], Minv)
    {
      var loc := found.solutions[i];
      var x := NaiveGemv(loc.x, file, base);
      var y := NaiveGemv(loc.y, file, base);
      var z := NaiveGemv(loc.z, file, base);
      result.Report(Triple(x, y, z));
      assert ImagesOf(ts[..i + 1], Minv) == ImagesOf(ts[..i], Minv) + [Triple(x, y, z)];
    }
    assert ts[..n] == ts;
  }

  /** No thread-private bucket overflows. */
  ghost predicate ListOk(vs: seq<Word>, shares: seq<Window>, p: nat, tsize: nat)
    requires Tiles(shares, |vs|) && p <= 64
  {
    TilesInBounds(vs, shares);
    CapacityOk(vs, shares, p, tsize)
  }

  /** What the algorithm demands of a slice and of the two lists: enough equations, and room in the hash
      tables and in the buckets. */
  ghost predicate SliceOk(s: Slice, L0: seq<Word>, L1: seq<Word>, sh0: seq<Window>, sh1: seq<Window>, p: nat,
                          tsize0: nat, tsize1: nat)
    requires Tiles(sh0, |L0|) && Tiles(sh1, |L1|) && p <= 64
  {
    // The condition is named so that the verifier does not split it.
    && Fits(s) && GoodSlice(s, p) && |s.CM| < 512
    && var room := ListOk(Images(L0, s.M), sh0, p, tsize0) && ListOk(Images(L1, s.M), sh1, p, tsize1)
                && forall i | 0 <= i < Pow2(p) :: HasRoom(WithKey(Images(L0, s.M), i, p));
    room
  }

  /** gemm and partition, for one side. */
  method PrepareSide(L: array<Word>, side: Side, shares: seq<Window>, schedule: seq<nat>, tables: array2<Word>,
                     ghost M: seq<Word>)
    requires side.Valid() && L.Length == side.n && L != side.LM && L != side.scratch
    requires |M| == 64 && tables.Length0 == 8 && tables.Length1 == 256 && forall i | 0 <= i < 8 ::
      Filled(tables, M, i, 256)
    requires Tiles(shares, L.Length) && |shares| == side.T && IsSchedule(schedule, shares)
    requires ListOk(Images(L[..], M), shares, side.p, side.tsize)
    modifies side.LM, side.scratch, side.count
    ensures side.Partitioned(Images(L[..], M), shares)
  {
    ghost var vs := Images(L[..], M);
    Gemm(L, side.LM, side.n, tables, M);
    assert side.LM[..] == vs;
    TilesInBounds(vs, shares);
    side.PartitionAll(shares, schedule, vs);
    GatheredTiles(vs, shares, side.T);
  }

  /** The scratch arrays of the two sides and the inputs are all different. */
  ghost predicate Separate(L0: array<Word>, L1: array<Word>, file: array<Word>, side0: Side, side1: Side) {
    && {side0.LM, side0.scratch} !! {side1.LM, side1.scratch} && side0.count != side1.count
    && {L0, L1, file} !! {side0.LM, side0.scratch, side1.LM, side1.scratch}
  }

  /** The triples reported for one slice. Whether the sum zero is taken to be in the slice depends on its
      table, which finds zero in an empty slot. */
  ghost predicate SliceReported(more: seq<Triple>, L0: seq<Word>, L1: seq<Word>, s: Slice)
  {
    // The condition is named so that the verifier does not split it.
    var counts := forall u: Triple :: multiset(more)[u] == SliceCount(u, L0, L1, s);
    counts
  }

  /** How often a triple is reported for one slice. */
  ghost function SliceCount(u: Triple, L0: seq<Word>, L1: seq<Word>, s: Slice): (n: nat) {
    if u.z != {} then SliceHits(u, L0, L1, s) else if FindsZero(s.CM) then ZeroHits(u, L0, L1) else 0
  }

  /** How often a triple (a, a, 0) occurs in the join of the two lists. */
  ghost function ZeroHits(u: Triple, L0: seq<Word>, L1: seq<Word>): (n: nat) {
    if u.x != {} && u.x == u.y && u.z == {} then multiset(L0)[u.x] * multiset(L1)[u.y] else 0
  }

  /** From the triples confirmed in the basis of the slice to those reported. */
  lemma LiftedCount(found: seq<Triple>, all: multiset<Triple>, H: seq<Word>, bad: bool, L0: seq<Word>, L1: seq<Word>,
                    s: Slice, l: nat, u: Triple)
    requires |H| == 512 && GoodSlice(s, l) && Ready(H, bad) && Holds(H, s.CM) && (H, bad) == TableOf(s.CM)
    requires IsWholeJoin(all, Images(L0, s.M), Images(L1, s.M), s.l)
    requires forall t: Triple :: multiset(found)[t] == if Answers(H, bad, t.z) then all[t] else 0
    ensures multiset(ImagesOf(found, s.Minv))[u] == SliceCount(u, L0, L1, s)
  {
    var v := Image(u, s.M);
    ImagesOfCount(found, s.M, s.Minv, u);
    SumsInBasis(u, s.M, s.Minv);
    assert multiset(found)[v] == if Answers(H, bad, v.z) then Pairs(v, Images(L0, s.M), Images(L1, s.M), s.l) else 0;
    if u.z != {} {
      AnswersAreMembership(H, bad, s.CM, v.z);
      HitsInBasis(u, L0, L1, s, l);
    } else {
      ZeroInBasis(u, L0, L1, s, l);
    }
  }

  lemma ZeroInBasis(u: Triple, L0: seq<Word>, L1: seq<Word>, s: Slice, l: nat)
    requires GoodSlice(s, l) && u.z == {}
    ensures Pairs(Image(u, s.M), Images(L0, s.M), Images(L1, s.M), s.l) == ZeroHits(u, L0, L1)
  {
    SumsInBasis(u, s.M, s.Minv);
    ImagesCount(L0, s.M, s.Minv, u.x);
    ImagesCount(L1, s.M, s.Minv, u.y);
    if Xor(u.x, u.y) == {} {
      assert forall i :: i in u.x <==> i in u.y;
      MatchesIsSharedTop(Gemv(u.x, s.M), Gemv(u.y, s.M), s.l);
    }
  }

  /** Phases 1 and 2 of process_slice: both lists are multiplied by M and partitioned. */
  method PrepareSides(L0: array<Word>, L1: array<Word>, side0: Side, side1: Side, file: array<Word>, at: nat,
                      sh0: seq<Window>, sh1: seq<Window>, sched0: seq<nat>, sched1: seq<nat>, ghost M: seq<Word>)
    requires side0.Valid() && side1.Valid() && Separate(L0, L1, file, side0, side1)
    requires L0.Length == side0.n && L1.Length == side1.n && at + 64 <= file.Length && M == file[at..at + 64]
    requires Tiles(sh0, L0.Length) && |sh0| == side0.T && IsSchedule(sched0, sh0)
      && ListOk(Images(L0[..], M), sh0, side0.p, side0.tsize)
    requires Tiles(sh1, L1.Length) && |sh1| == side1.T && IsSchedule(sched1, sh1)
      && ListOk(Images(L1[..], M), sh1, side1.p, side1.tsize)
    modifies side0.LM, side0.scratch, side0.count, side1.LM, side1.scratch, side1.count
    ensures side0.Partitioned(Images(L0[..], M), sh0) && side1.Partitioned(Images(L1[..], M), sh1)
  {
    var tables := new Word[8, 256]((_, _) => {});
    MatmulInit(file, at, tables, M);
    PrepareSide(L0, side0, sh0, sched0, tables, M);
    PrepareSide(L1, side1, sh1, sched1, tables, M);
  }

  /** Phase 4: the triples whose sum is in the slice are reported, in the original basis. */
  method ReportSlice(pre: seq<seq<Triple>>, H: array<Word>, bad: bool, file: array<Word>, base: nat, result: TaskResult,
                     ghost L0: seq<Word>, ghost L1: seq<Word>, ghost s: Slice)
    returns (ghost more: seq<Triple>)
    requires H.Length == 512 && Ready(H[..], bad) && Holds(H[..], s.CM) && (H[..], bad) == TableOf(s.CM)
    requires base + 64 <= file.Length && file[base..base + 64] == s.Minv
    requires GoodSlice(s, 0) && IsWholeJoin(All(pre), Images(L0, s.M), Images(L1, s.M), s.l)
    modifies result
    ensures result.solutions == old(result.solutions) + more && SliceReported(more, L0, L1, s)
  {
    var found := new TaskResult();
    ghost var table := H[..];
    CheckAll(found, pre, H, bad);
    Lift(found, result, file, base, s.Minv);
    more := ImagesOf(found.solutions, s.Minv);
    forall u: Triple
      ensures multiset(more)[u] == SliceCount(u, L0, L1, s)
    {
      LiftedCount(found.solutions, All(pre), table, bad, L0, L1, s, 0, u);
    }
  }

  /** Phases 1 to 3: the pairs of vectors that agree on the l top bits, in the basis of the slice. */
  method Preselect(L0: array<Word>, L1: array<Word>, side0: Side, side1: Side, file: array<Word>, at: nat, l: nat,
                   sh0: seq<Window>, sh1: seq<Window>, sched0: seq<nat>, sched1: seq<nat>, owner: seq<nat>,
                   threads: nat,
                   ghost s: Slice)
    returns (pre: seq<seq<Triple>>)
    requires side0.Valid() && side1.Valid() && side0.p == side1.p && Separate(L0, L1, file, side0, side1)
    requires L0.Length == side0.n && L1.Length == side1.n
    requires Tiles(sh0, L0.Length) && |sh0| == side0.T && IsSchedule(sched0, sh0)
    requires Tiles(sh1, L1.Length) && |sh1| == side1.T && IsSchedule(sched1, sh1)
    requires |owner| == Pow2(side0.p) && forall i | 0 <= i < |owner| :: owner[i] < threads
    requires SliceOk(s, L0[..], L1[..], sh0, sh1, side0.p, side0.tsize, side1.tsize)
    requires l == s.l && at + 64 <= file.Length && file[at..at + 64] == s.M
    modifies side0.LM, side0.scratch, side0.count, side1.LM, side1.scratch, side1.count
    ensures IsWholeJoin(All(pre), Images(L0[..], s.M), Images(L1[..], s.M), s.l)
  {
    ghost var A, B := Images(L0[..], s.M), Images(L1[..], s.M);
    PrepareSides(L0, L1, side0, side1, file, at, sh0, sh1, sched0, sched1, s.M);
    pre := SubjoinAll(side0, side1, l, owner, threads, A, B, sh0, sh1);
  }

  /** process_slice */
  method ProcessSlice(L0: array<Word>, L1: array<Word>, side0: Side, side1: Side, file: array<Word>, at: nat,
                      sh0: seq<Window>, sh1: seq<Window>, sched0: seq<nat>, sched1: seq<nat>, owner: seq<nat>,
                      threads: nat,
                      result: TaskResult, ghost s: Slice)
    returns (ghost more: seq<Triple>)
    requires side0.Valid() && side1.Valid() && side0.p == side1.p && Separate(L0, L1, file, side0, side1)
    requires L0.Length == side0.n && L1.Length == side1.n
    requires Tiles(sh0, L0.Length) && |sh0| == side0.T && IsSchedule(sched0, sh0)
    requires Tiles(sh1, L1.Length) && |sh1| == side1.T && IsSchedule(sched1, sh1)
    requires |owner| == Pow2(side0.p) && forall i | 0 <= i < |owner| :: owner[i] < threads
    requires SliceAt(file[..], at, s) && SliceOk(s, L0[..], L1[..], sh0, sh1, side0.p, side0.tsize, side1.tsize)
    modifies side0.LM, side0.scratch, side0.count, side1.LM, side1.scratch, side1.count, result
    ensures result.solutions == old(result.solutions) + more && SliceReported(more, L0[..], L1[..], s)
  {
    ghost var l0, l1 := L0[..], L1[..];
    var bad, H, l := ReadSlice(file, at, s);
    var pre := Preselect(L0, L1, side0, side1, file, at, l, sh0, sh1, sched0, sched1, owner, threads, s);
    more := ReportSlice(pre, H, bad, file, at + 64, result, l0, l1, s);
  }

  /** Reads the fields of the slice, and builds the table of its vectors. */
  method ReadSlice(file: array<Word>, at: nat, ghost s: Slice) returns (bad: bool, H: array<Word>, l: nat)
    requires SliceAt(file[..], at, s) && |s.CM| < 512
    ensures fresh(H) && H.Length == 512 && Ready(H[..], bad) && Holds(H[..], s.CM) && l == s.l
    ensures (H[..], bad) == TableOf(s.CM)
    ensures at + 128 <= file.Length && file[at..at + 64] == s.M && file[at + 64..at + 128] == s.Minv
  {
    ghost var words := file[..];
    SliceFields(words, at, s);
    var n := NumberOf(file[at + 128], 64);
    l := NumberOf(file[at + 129], 64);
    assert file[at + HEADER..at + HEADER + n] == words[at + HEADER..at + HEADER + n] == s.CM;
    assert file[at..at + 64] == words[at..at + 64];
    assert file[at + 64..at + 128] == words[at + 64..at + 128];
    bad, H := BuildTable(file, at + HEADER, n, s.CM);
  }

  method BuildTable(file: array<Word>, lo: nat, n: nat, ghost CM: seq<Word>) returns (bad: bool, H: array<Word>)
    requires lo + n <= file.Length && file[lo..lo + n] == CM && n < 512
    ensures fresh(H) && H.Length == 512 && Ready(H[..], bad) && Holds(H[..], CM) && (H[..], bad) == TableOf(CM)
  {
    H := new Word[512](_ => {});
    bad := CuckooBuild(file, lo, lo + n, H);
  }

  /** How often the triple u must be reported, over all the slices. */
  ghost function TotalHits(u: Triple, L0: seq<Word>, L1: seq<Word>, slices: seq<Slice>): (n: nat) {
    if slices == [] then 0 else
    var k := |slices| - 1;
    TotalHits(u, L0, L1, slices[..k]) + SliceHits(u, L0, L1, slices[k])
  }

  /** The number of slices whose table answers that zero is in them. */
  ghost function ZeroTables(slices: seq<Slice>): (n: nat) {
    if slices == [] then 0 else
    var k := |slices| - 1;
    ZeroTables(slices[..k]) + if FindsZero(slices[k].CM) then 1 else 0
  }

  /** How often a triple is reported for all the slices. */
  ghost function TotalCount(u: Triple, L0: seq<Word>, L1: seq<Word>, slices: seq<Slice>): (n: nat) {
    if u.z != {} then TotalHits(u, L0, L1, slices) else ZeroTables(slices) * ZeroHits(u, L0, L1)
  }

  /** The triples reported for all the slices. */
  ghost predicate AllReported(sols: seq<Triple>, L0: seq<Word>, L1: seq<Word>, slices: seq<Slice>)
  {
    // The condition is named so that the verifier does not split it.
    var counts := forall u: Triple :: multiset(sols)[u] == TotalCount(u, L0, L1, slices);
    counts
  }

  lemma OnceMore(k: nat, n: nat)
    ensures (k + 1) * n == k * n + n
  {}

  lemma CountStep(u: Triple, L0: seq<Word>, L1: seq<Word>, slices: seq<Slice>, i: nat)
    requires i < |slices|
    ensures TotalCount(u, L0, L1, slices[..i + 1]) == TotalCount(u, L0, L1, slices[..i])
      + SliceCount(u, L0, L1, slices[i])
  {
    assert slices[..i + 1][..i] == slices[..i];
    OnceMore(ZeroTables(slices[..i]), ZeroHits(u, L0, L1));
  }

  lemma ReportedStep(sols: seq<Triple>, more: seq<Triple>, L0: seq<Word>, L1: seq<Word>, slices: seq<Slice>, i: nat)
    requires i < |slices| && AllReported(sols, L0, L1, slices[..i]) && SliceReported(more, L0, L1, slices[i])
    ensures AllReported(sols + more, L0, L1, slices[..i + 1])
  {
    forall u: Triple
      ensures multiset(sols + more)[u] == TotalCount(u, L0, L1, slices[..i + 1])
    {
      assert multiset(sols + more)[u] == multiset(sols)[u] + multiset(more)[u];
      CountStep(u, L0, L1, slices, i);
    }
  }

  const P: nat := 10
  const T_PART: nat := 2
  const T_SUBJ: nat := 3

  /** One iteration of the slice walk. */
  method TaskStep(L0: array<Word>, L1: array<Word>, side0: Side, side1: Side, file: array<Word>, at: nat,
                  sh0: seq<Window>, sh1: seq<Window>, sched0: seq<nat>, sched1: seq<nat>, owner: seq<nat>,
                  result: TaskResult, ghost slices: seq<Slice>, ghost i: nat, ghost s: Slice, ghost l0: seq<Word>,
                  ghost l1: seq<Word>)
    requires side0.Valid() && side1.Valid() && side0.p == side1.p && Separate(L0, L1, file, side0, side1)
    requires L0.Length == side0.n && L1.Length == side1.n
    requires Tiles(sh0, L0.Length) && |sh0| == side0.T && IsSchedule(sched0, sh0)
    requires Tiles(sh1, L1.Length) && |sh1| == side1.T && IsSchedule(sched1, sh1)
    requires side0.p == P && IsOwner(owner)
    requires l0 == L0[..] && l1 == L1[..]
    requires i < |slices| && s == slices[i] && SliceAt(file[..], at, s)
      && SliceOk(s, l0, l1, sh0, sh1, P, side0.tsize, side1.tsize)
    requires AllReported(result.solutions, l0, l1, slices[..i])
    modifies side0.LM, side0.scratch, side0.count, side1.LM, side1.scratch, side1.count, result
    ensures AllReported(result.solutions, l0, l1, slices[..i + 1])
  {
    ghost var before := result.solutions;
    ghost var more := ProcessSlice(L0, L1, side0, side1, file, at, sh0, sh1, sched0, sched1, owner, 3, result, s);
    ReportedStep(before, more, l0, l1, slices, i);
  }

  /** The partition shares, and for every slice the order in which the threads run, as the task needs them. */
  ghost predicate Threads(sh: seq<Window>, sched: nat -> seq<nat>, n: nat) {
    Tiles(sh, n) && |sh| == T_PART && forall i :: IsSchedule(sched(i), sh)
  }

  /** Every subjoin of every slice is given to some thread. */
  ghost predicate Owners(owner: nat -> seq<nat>) {
    forall i :: IsOwner(owner(i))
  }

  ghost predicate IsOwner(owner: seq<nat>) {
    |owner| == Pow2(P) && forall h | 0 <= h < |owner| :: owner[h] < T_SUBJ
  }

  /** Every slice meets the demands of the algorithm. */
  ghost predicate SlicesOk(slices: seq<Slice>, L0: seq<Word>, L1: seq<Word>, sh0: seq<Window>, sh1: seq<Window>,
                           tsize0: nat, tsize1: nat)
    requires Tiles(sh0, |L0|) && Tiles(sh1, |L1|)
  {
    AllFit(slices) && forall i | 0 <= i < |slices| :: SliceOk(slices[i], L0, L1, sh0, sh1, P, tsize0, tsize1)
  }

  /** The walk over the slices of the file. */
  method WalkSlices(L0: array<Word>, L1: array<Word>, side0: Side, side1: Side, file: array<Word>,
                    sh0: seq<Window>, sh1: seq<Window>, sched0: nat -> seq<nat>, sched1: nat -> seq<nat>,
                    owner: nat -> seq<nat>,
                    result: TaskResult, ghost slices: seq<Slice>)
    requires side0.Valid() && side1.Valid() && side0.p == side1.p == P && side0.T == side1.T == T_PART
    requires Separate(L0, L1, file, side0, side1) && L0.Length == side0.n && L1.Length == side1.n
    requires Threads(sh0, sched0, L0.Length) && Threads(sh1, sched1, L1.Length) && Owners(owner)
    requires SlicesOk(slices, L0[..], L1[..], sh0, sh1, side0.tsize, side1.tsize) && file[..] == FileOf(slices)
    requires result.solutions == []
    modifies side0.LM, side0.scratch, side0.count, side1.LM, side1.scratch, side1.count, result
    ensures AllReported(result.solutions, L0[..], L1[..], slices)
  {
    ghost var l0, l1, words := L0[..], L1[..], file[..];
    var at, i := 0, 0;
    WholeFile(words, at, slices, i);
    while at < file.Length
      invariant words == file[..] && l0 == L0[..] && l1 == L1[..]
      invariant Left(words, at, slices, i)
      invariant AllReported(result.solutions, l0, l1, slices[..i])
      decreases file.Length - at
    {
      NextSlice(words, at, slices, i);
      ghost var s := slices[i];
      TaskStep(L0, L1, side0, side1, file, at, sh0, sh1, sched0(i), sched1(i), owner(i), result, slices, i, s, l0, l1);
      at := After(file, at, s);
      i := i + 1;
    }
    WholeFile(words, at, slices, i);
  }

  /** iterated_joux_task: for every assignment of the work to the threads, the triples reported are those
      whose third value is in a slice. */
  method IteratedJouxTask(L0: array<Word>, L1: array<Word>, file: array<Word>, tsize0: nat, tsize1: nat,
                          sh0: seq<Window>, sh1: seq<Window>, sched0: nat -> seq<nat>, sched1: nat -> seq<nat>,
                          owner: nat -> seq<nat>,
                          ghost slices: seq<Slice>)
    returns (result: TaskResult)
    requires Threads(sh0, sched0, L0.Length) && Threads(sh1, sched1, L1.Length) && Owners(owner)
    requires SlicesOk(slices, L0[..], L1[..], sh0, sh1, tsize0, tsize1) && file[..] == FileOf(slices)
    ensures AllReported(result.solutions, L0[..], L1[..], slices)
  {
    result := new TaskResult();
    var side0 := new Side(L0.Length, 10, 2, tsize0);
    var side1 := new Side(L1.Length, 10, 2, tsize1);
    WalkSlices(L0, L1, side0, side1, file, sh0, sh1, sched0, sched1, owner, result, slices);
  }
}
