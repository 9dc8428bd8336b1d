/** From preimages to near-collisions: the splitter, the merger, the slicer and the join, one after another. */
module Whole {
  import opened Words
  import opened Numbers
  import opened XorArithmetic
  import opened LoserTree
  import opened Merger
  import opened Hasher
  import opened Splitter
  import opened SplitterRuns
  import opened Partitioned
  import opened Slices
  import opened Subjoin
  import opened Joux
  import opened Pipeline
  import Jobs = JobCoverage
  import TaskGroups

  /** The hash is kept, and is cut into the partition number k and the partial hash x. */
  ghost predicate Cut(hash: seq<Half>, bits: nat, k: nat, x: Word)
    requires bits <= 31
  {
    |hash| == 8 && IsValid(hash) && NumberOf(PartitioningKey(bits, hash), bits) == k && PartialHash(hash) == x
  }

  /** A preimage of partition k whose partial hash is x. */
  ghost predicate HasParts(hash: HashFunction, bits: nat, k: nat, p: Preimage, x: Word)
    requires bits <= 31
  {
    Cut(hash(p), bits, k, x)
  }

  /** A run of the splitter on a file of preimages. */
  datatype SplitterRun = SplitterRun(input: seq<Preimage>, mappers: nat, capacity: nat, steps: seq<Step>,
    states: seq<State>)

  ghost predicate Finished(hash: HashFunction, bits: nat, run: SplitterRun)
    requires bits <= 31
  {
    var c := HashConfig(hash, bits, run.mappers, run.capacity, run.input);
    run.mappers > 0 && IsRun(c, run.steps, run.states) && Final(c, run.states[|run.steps|])
  }

  /** The files that it leaves, one for each partition. */
  ghost function Files(run: SplitterRun): (files: seq<seq<Entry>>) {
    if |run.steps| < |run.states| then run.states[|run.steps|].files else []
  }

  type Family = (Preimage, nat) -> bool

  /** The preimages of partition k, with the numbers of their partial hashes. */
  ghost function FamilyOf(hash: HashFunction, bits: nat, k: nat): (family: Family)
    requires bits <= 31
  {
    (p: Preimage, h: nat) => exists x: Word :: HasParts(hash, bits, k, p, x) && NumberOf(x, 64) == h
  }

  lemma PlaceInFamily(hash: HashFunction, bits: nat, k: nat, e: Entry)
    requires bits <= 31
    ensures PlaceOf(hash, bits, e.preimage) == Placed(k, e) <==> FamilyOf(hash, bits, k)(e.preimage, e.hash)
  {
    var h := hash(e.preimage);
    if |h| == 8 && IsValid(h) {
      assert PlaceOf(hash, bits, e.preimage) == Placed(k, e) <==>
             HasParts(hash, bits, k, e.preimage, PartialHash(h)) && NumberOf(PartialHash(h), 64) == e.hash;
    }
  }

  /** The file holds the entries of exactly the preimages of the input that belong to the family. */
  ghost predicate IsSlot(family: Family, input: seq<Preimage>, file: seq<Entry>) {
    forall e: Entry :: e in file <==> e.preimage in input && family(e.preimage, e.hash)
  }

  lemma FilesAreSlots(hash: HashFunction, bits: nat, run: SplitterRun)
    requires bits <= 31 && Finished(hash, bits, run)
    ensures |Files(run)| == Pow2(bits)
    ensures forall k | 0 <= k < Pow2(bits) :: IsSlot(FamilyOf(hash, bits, k), run.input, Files(run)[k])
  {
    HashConfigIsGood(hash, bits, run.mappers, run.capacity, run.input);
    SplitterIsCorrect(HashConfig(hash, bits, run.mappers, run.capacity, run.input), run.steps, run.states);
    forall k, e: Entry | 0 <= k < Pow2(bits)
      ensures e in Files(run)[k] <==> e.preimage in run.input && FamilyOf(hash, bits, k)(e.preimage, e.hash)
    {
      SlotHoldsItsPartition(hash, bits, run.mappers, run.capacity, run.input, run.steps, run.states, k, e);
      PlaceInFamily(hash, bits, k, e);
    }
  }

  /** Some preimage of the input belongs to the family with hash number h. */
  ghost predicate Occurs(family: Family, input: seq<Preimage>, h: nat) {
    exists p :: p in input && family(p, h)
  }

  lemma SlotHashes(family: Family, input: seq<Preimage>, file: seq<Entry>, h: nat)
    requires IsSlot(family, input, file)
    ensures HasHash(file, h) <==> Occurs(family, input, h)
  {
    if HasHash(file, h) {
      var i :| 0 <= i < |file| && file[i].hash == h;
      assert file[i] in file;
    }
    if p :| p in input && family(p, h) {
      assert Entry(h, p) in file;
      var i :| 0 <= i < |file| && file[i] == Entry(h, p);
    }
  }

  /** A file in the order of its hashes. */
  ghost predicate IsSorted(file: seq<Entry>, part: seq<Entry>) {
    multiset(part) == multiset(file) && GoodFile(part)
  }

  lemma SortedSlot(family: Family, input: seq<Preimage>, file: seq<Entry>, part: seq<Entry>)
    requires IsSlot(family, input, file) && IsSorted(file, part)
    ensures IsSlot(family, input, part)
  {
    forall e: Entry
      ensures e in part <==> e in file
    {
      assert e in multiset(part) <==> e in multiset(file);
    }
  }

  /** The words of a file, and the numbers they stand for. */
  ghost predicate AreNumbers(list: seq<Word>, hashes: seq<nat>) {
    |list| == |hashes| && forall i | 0 <= i < |list| :: NumberOf(list[i], 64) == hashes[i]
  }

  /** The list that the merger makes of sorted files, each of which has the preimages of the family in one input. */
  ghost predicate IsList(family: Family, inputs: seq<seq<Preimage>>, parts: seq<seq<Entry>>, hashes: seq<nat>,
                         list: seq<Word>) {
    && |parts| == |inputs| && (forall r | 0 <= r < |parts| :: GoodFile(parts[r]) && IsSlot(family, inputs[r], parts[r]))
    && IsUnion(parts, hashes) && AreNumbers(list, hashes)
  }

  ghost predicate OccursInSome(family: Family, inputs: seq<seq<Preimage>>, h: nat) {
    exists r :: 0 <= r < |inputs| && Occurs(family, inputs[r], h)
  }

  lemma HashesOfList(family: Family, inputs: seq<seq<Preimage>>, parts: seq<seq<Entry>>, hashes: seq<nat>,
                     list: seq<Word>,
                     h: nat)
    requires IsList(family, inputs, parts, hashes, list)
    ensures h in hashes <==> OccursInSome(family, inputs, h)
    ensures h in hashes ==> h > 0
  {
    if h in hashes {
      var r :| 0 <= r < |parts| && HasHash(parts[r], h);
      SlotHashes(family, inputs[r], parts[r], h);
    }
    if r :| 0 <= r < |inputs| && Occurs(family, inputs[r], h) {
      SlotHashes(family, inputs[r], parts[r], h);
    }
  }

  lemma {:induction false} NumberIsInjective(x: Word, y: Word)
    requires NumberOf(x, 64) == NumberOf(y, 64)
    ensures x == y
  {
    BitsOfNumber(x, 64);
    BitsOfNumber(y, 64);
  }

  /** A list holds the partial hashes of the preimages of its family, each once, and none is zero. */
  lemma ListMembers(family: Family, inputs: seq<seq<Preimage>>, parts: seq<seq<Entry>>, hashes: seq<nat>,
                    list: seq<Word>, x: Word)
    requires IsList(family, inputs, parts, hashes, list)
    ensures x in list <==> OccursInSome(family, inputs, NumberOf(x, 64))
    ensures x in list ==> x != {} && multiset(list)[x] == 1
  {
    HashesOfList(family, inputs, parts, hashes, list, NumberOf(x, 64));
    if x in list {
      var i :| 0 <= i < |list| && list[i] == x;
      NumberOfNothing(64);
      OnlyOnce(list, i);
    }
    if i :| 0 <= i < |hashes| && hashes[i] == NumberOf(x, 64) {
      NumberIsInjective(list[i], x);
    }
  }

  lemma OnlyOnce(list: seq<Word>, i: nat)
    requires i < |list| && forall j, k | 0 <= j < k < |list| :: NumberOf(list[j], 64) < NumberOf(list[k], 64)
    ensures multiset(list)[list[i]] == 1
  {
    assert list == list[..i] + [list[i]] + list[i + 1..];
    assert list[i] !in list[..i] && list[i] !in list[i + 1..];
  }

  /** The list of partition k: the files that the runs have left for it, sorted and merged. */
  ghost predicate IsMerged(runs: seq<SplitterRun>, k: nat, parts: seq<seq<Entry>>, hashes: seq<nat>, list: seq<Word>) {
    && |parts| == |runs|
    && (forall r | 0 <= r < |runs| :: k < |Files(runs[r])| && IsSorted(Files(runs[r])[k], parts[r]))
    && IsUnion(parts, hashes) && AreNumbers(list, hashes)
  }

  ghost predicate ListMade(runs: seq<SplitterRun>, k: nat, list: seq<Word>) {
    exists parts: seq<seq<Entry>>, hashes: seq<nat> :: IsMerged(runs, k, parts, hashes, list)
  }

  /** The preimages of one kind: how they are hashed, the runs of the splitter that have read them, and the lists made
      of the files that these have left, one for each partition. */
  datatype Source = Source(hash: HashFunction, runs: seq<SplitterRun>, lists: seq<seq<Word>>)

  ghost predicate Prepared(bits: nat, src: Source)
    requires bits <= 31
  {
    && |src.lists| == Pow2(bits) && (forall r | 0 <= r < |src.runs| :: Finished(src.hash, bits, src.runs[r]))
    && forall k | 0 <= k < |src.lists| :: ListMade(src.runs, k, src.lists[k])
  }

  ghost function Inputs(runs: seq<SplitterRun>): (inputs: seq<seq<Preimage>>)
    ensures |inputs| == |runs| && forall r | 0 <= r < |runs| :: inputs[r] == runs[r].input
  {
    seq(|runs|, r requires 0 <= r < |runs| => runs[r].input)
  }

  lemma PreparedIsList(bits: nat, src: Source, k: nat) returns (parts: seq<seq<Entry>>, hashes: seq<nat>)
    requires bits <= 31 && Prepared(bits, src) && k < |src.lists|
    ensures IsList(FamilyOf(src.hash, bits, k), Inputs(src.runs), parts, hashes, src.lists[k])
  {
    assert ListMade(src.runs, k, src.lists[k]);
    parts, hashes :| IsMerged(src.runs, k, parts, hashes, src.lists[k]);
    forall r | 0 <= r < |parts|
      ensures GoodFile(parts[r]) && IsSlot(FamilyOf(src.hash, bits, k), Inputs(src.runs)[r], parts[r])
    {
      FilesAreSlots(src.hash, bits, src.runs[r]);
      SortedSlot(FamilyOf(src.hash, bits, k), src.runs[r].input, Files(src.runs[r])[k], parts[r]);
    }
  }

  lemma PartsInFamily(hash: HashFunction, bits: nat, k: nat, p: Preimage, x: Word)
    requires bits <= 31
    ensures FamilyOf(hash, bits, k)(p, NumberOf(x, 64)) <==> HasParts(hash, bits, k, p, x)
  {
    if x': Word :| HasParts(hash, bits, k, p, x') && NumberOf(x', 64) == NumberOf(x, 64) {
      NumberIsInjective(x', x);
    }
  }

  /** A preimage that some run has read. */
  ghost predicate Given(runs: seq<SplitterRun>, p: Preimage) {
    exists r :: 0 <= r < |runs| && p in runs[r].input
  }

  lemma OccursIffGiven(family: Family, runs: seq<SplitterRun>, h: nat)
    ensures OccursInSome(family, Inputs(runs), h) <==> exists p :: Given(runs, p) && family(p, h)
  {
    var inputs := Inputs(runs);
    if OccursInSome(family, inputs, h) {
      var r :| 0 <= r < |inputs| && Occurs(family, inputs[r], h);
      var p :| p in inputs[r] && family(p, h);
      assert p in runs[r].input && Given(runs, p);
    }
    if p :| Given(runs, p) && family(p, h) {
      var r :| 0 <= r < |runs| && p in runs[r].input;
      assert p in inputs[r] && Occurs(family, inputs[r], h);
    }
  }

  /** A preimage of the kind that has been read, belongs to partition k, and has the partial hash x. */
  ghost predicate Belongs(bits: nat, src: Source, k: nat, p: Preimage, x: Word)
    requires bits <= 31
  {
    Given(src.runs, p) && HasParts(src.hash, bits, k, p, x)
  }

  ghost predicate Known(bits: nat, src: Source, k: nat, x: Word)
    requires bits <= 31
  {
    exists p :: Belongs(bits, src, k, p, x)
  }

  lemma KnownInFamily(bits: nat, src: Source, k: nat, x: Word)
    requires bits <= 31
    ensures Known(bits, src, k, x) <==>
            exists p :: Given(src.runs, p) && FamilyOf(src.hash, bits, k)(p, NumberOf(x, 64))
  {
    var family := FamilyOf(src.hash, bits, k);
    if p :| Belongs(bits, src, k, p, x) {
      PartsInFamily(src.hash, bits, k, p, x);
    }
    if p :| Given(src.runs, p) && family(p, NumberOf(x, 64)) {
      PartsInFamily(src.hash, bits, k, p, x);
      assert Belongs(bits, src, k, p, x);
    }
  }

  /** The list of a partition holds the partial hashes of its preimages, each once, and none of them is zero. */
  lemma ListHoldsPartition(bits: nat, src: Source, k: nat, x: Word)
    requires bits <= 31 && Prepared(bits, src) && k < |src.lists|
    ensures x in src.lists[k] <==> Known(bits, src, k, x)
    ensures x in src.lists[k] ==> x != {} && multiset(src.lists[k])[x] == 1
  {
    var parts, hashes := PreparedIsList(bits, src, k);
    ListMembers(FamilyOf(src.hash, bits, k), Inputs(src.runs), parts, hashes, src.lists[k], x);
    OccursIffGiven(FamilyOf(src.hash, bits, k), src.runs, NumberOf(x, 64));
    KnownInFamily(bits, src, k, x);
  }

  /** Words of k bits add up as their numbers do. */
  lemma KeysAdd(x: Word, y: Word, z: Word, k: nat)
    requires FitsIn(x, k) && FitsIn(y, k) && FitsIn(z, k) && k <= 32
    ensures NumberOf(z, k) == XorU32(NumberOf(x, k), NumberOf(y, k)) <==> z == Xor(x, y)
  {
    XorBits(NumberOf(x, k), NumberOf(y, k), k);
    BitsOfNumber(x, k);
    BitsOfNumber(y, k);
    BitsOfNumber(z, k);
    BitsOfNumber(Xor(x, y), k);
  }

  lemma PartsCollide(a: seq<Half>, b: seq<Half>, c: seq<Half>, bits: nat, i: nat, j: nat, u: Triple)
    requires bits <= 31 && Cut(a, bits, i, u.x) && Cut(b, bits, j, u.y) && |c| == 8 && IsValid(c)
      && PartialHash(c) == u.z
    ensures TopBitsZero(Sum3(a, b, c), 97 + bits) <==> Cut(c, bits, XorU32(i, j), u.z) && u.z == Xor(u.x, u.y)
  {
    PackingIsCompatible(a, b, c, bits);
    KeysAdd(PartitioningKey(bits, a), PartitioningKey(bits, b), PartitioningKey(bits, c), bits);
    XorZero(Xor(PartialHash(a), PartialHash(b)), PartialHash(c));
  }

  /** The three kinds of preimages, and the slices of the lists of the third kind. */
  datatype Data = Data(foo: Source, bar: Source, foobar: Source, slices: seq<seq<Slice>>)

  ghost predicate Ready(bits: nat, data: Data, l: nat)
    requires bits <= 31
  {
    && Prepared(bits, data.foo) && Prepared(bits, data.bar) && Prepared(bits, data.foobar)
    && |data.slices| == Pow2(bits) && forall k | 0 <= k < Pow2(bits) ::
      Accepted(data.slices[k], data.foobar.lists[k], l)
  }

  /** Hashes that are kept, and add up to zero on the 97 + bits top bits. */
  ghost predicate HashesCollide(a: seq<Half>, b: seq<Half>, c: seq<Half>, bits: nat) {
    && |a| == |b| == |c| == 8 && IsValid(a) && IsValid(b) && IsValid(c) && TopBitsZero(Sum3(a, b, c), 97 + bits)
  }

  /** Preimages of the three kinds, of the partitions i and j the first two, that are a near-collision. */
  ghost predicate Collides(bits: nat, data: Data, i: nat, j: nat, a: Preimage, b: Preimage, c: Preimage, u: Triple)
    requires bits <= 31
  {
    && Belongs(bits, data.foo, i, a, u.x) && Belongs(bits, data.bar, j, b, u.y) && Given(data.foobar.runs, c)
    && HashesCollide(data.foo.hash(a), data.bar.hash(b), data.foobar.hash(c), bits)
    && PartialHash(data.foobar.hash(c)) == u.z
  }

  /** There is a near-collision with the partial hashes u. */
  ghost predicate IsCollision(bits: nat, data: Data, i: nat, j: nat, u: Triple)
    requires bits <= 31
  {
    exists a, b, c :: Collides(bits, data, i, j, a, b, c, u)
  }

  lemma CollisionParts(bits: nat, data: Data, i: nat, j: nat, a: Preimage, b: Preimage, c: Preimage, u: Triple)
    requires bits <= 31
    ensures Collides(bits, data, i, j, a, b, c, u) <==>
            && Belongs(bits, data.foo, i, a, u.x) && Belongs(bits, data.bar, j, b, u.y)
            && Belongs(bits, data.foobar, XorU32(i, j), c, u.z) && u.z == Xor(u.x, u.y)
  {
    var a, b, h := data.foo.hash(a), data.bar.hash(b), data.foobar.hash(c);
    if Cut(a, bits, i, u.x) && Cut(b, bits, j, u.y) && |h| == 8 && IsValid(h) && PartialHash(h) == u.z {
      PartsCollide(a, b, h, bits, i, j, u);
    }
  }

  /** The sums of partial hashes that are the partial hashes of a near-collision. */
  lemma CollisionIffKnown(bits: nat, data: Data, i: nat, j: nat, u: Triple)
    requires bits <= 31
    ensures IsCollision(bits, data, i, j, u) <==>
            && Known(bits, data.foo, i, u.x) && Known(bits, data.bar, j, u.y)
            && Known(bits, data.foobar, XorU32(i, j), u.z) && u.z == Xor(u.x, u.y)
  {
    if a, b, c :| Collides(bits, data, i, j, a, b, c, u) {
      CollisionParts(bits, data, i, j, a, b, c, u);
    }
    if Known(bits, data.foo, i, u.x) && Known(bits, data.bar, j, u.y)
      && Known(bits, data.foobar, XorU32(i, j), u.z) && u.z == Xor(u.x, u.y) {
      var a :| Belongs(bits, data.foo, i, a, u.x);
      var b :| Belongs(bits, data.bar, j, b, u.y);
      var c :| Belongs(bits, data.foobar, XorU32(i, j), c, u.z);
      CollisionParts(bits, data, i, j, a, b, c, u);
    }
  }

  /** The task (i, j) has joined its two lists with the slices of list i ^ j. */
  ghost predicate TaskDone(data: Data, i: nat, j: nat, sols: seq<Triple>) {
    && i < |data.foo.lists| && j < |data.bar.lists| && XorU32(i, j) < |data.slices|
    && AllReported(sols, data.foo.lists[i], data.bar.lists[j], data.slices[XorU32(i, j)])
  }

  /** A list without zeros and repetitions. */
  ghost predicate Simple(list: seq<Word>) {
    forall x | x in list :: x != {} && multiset(list)[x] == 1
  }

  lemma SolutionsAreFoundOnce(L0: seq<Word>, L1: seq<Word>, C: seq<Word>, slices: seq<Slice>, l: nat,
                              sols: seq<Triple>, u: Triple)
    requires AllReported(sols, L0, L1, slices) && Accepted(slices, C, l) && Simple(L0) && Simple(L1) && Simple(C)
    requires u.z != {}
    ensures multiset(sols)[u] == if IsSolution(u, L0, L1, C) then 1 else 0
  {
    HitsPerSlice(u, L0, L1, slices);
    AcceptedMembers(slices, C, l, u.z);
    FoundIffInLists(u, sols, L0, L1, C, slices, l);
    assert u in sols <==> u in multiset(sols);
  }

  lemma ListIsSimple(bits: nat, src: Source, k: nat)
    requires bits <= 31 && Prepared(bits, src) && k < |src.lists|
    ensures Simple(src.lists[k])
    ensures forall x: Word :: x in src.lists[k] <==> Known(bits, src, k, x)
  {
    forall x: Word
      ensures x in src.lists[k] <==> Known(bits, src, k, x)
      ensures x in src.lists[k] ==> x != {} && multiset(src.lists[k])[x] == 1
    {
      ListHoldsPartition(bits, src, k, x);
    }
  }

  /** The task (i, j) reports the partial hashes of exactly the near-collisions whose first two preimages are in the
      partitions i and j, each once; besides, it may report triples with a third value of zero, which is in no list. */
  lemma TaskFindsCollisions(bits: nat, data: Data, l: nat, i: nat, j: nat, sols: seq<Triple>, u: Triple)
    requires bits <= 31 && Ready(bits, data, l) && i < Pow2(bits) && j < Pow2(bits) && TaskDone(data, i, j, sols)
    ensures IsCollision(bits, data, i, j, u) ==> u.z != {}
    ensures u.z != {} ==> multiset(sols)[u] == if IsCollision(bits, data, i, j, u) then 1 else 0
  {
    var k := XorU32(i, j);
    XorBits(i, j, bits);
    ListIsSimple(bits, data.foo, i);
    ListIsSimple(bits, data.bar, j);
    ListIsSimple(bits, data.foobar, k);
    CollisionIffKnown(bits, data, i, j, u);
    if u.z != {} {
      SolutionsAreFoundOnce(data.foo.lists[i], data.bar.lists[j], data.foobar.lists[k], data.slices[k], l, sols, u);
    }
  }

  /** What all the tasks report. */
  type Results = (nat, nat) -> seq<Triple>

  ghost predicate AllDone(bits: nat, data: Data, results: Results) {
    forall i: nat, j: nat | i < Pow2(bits) && j < Pow2(bits) :: TaskDone(data, i, j, results(i, j))
  }

  lemma DoneAtOnePlace(ctx: TaskGroups.Context, i: nat, j: nat) returns (p: Jobs.Place)
    requires ctx.cpuGridSize > 0 && ctx.perCoreGridSize > 0 && ctx.tgPerJob > 0 && Jobs.SizesDivide(ctx)
    requires i < ctx.taskGridSize && j < ctx.taskGridSize
    ensures forall p' :: Jobs.DoneAt(Jobs.GridOf(ctx), p', i, j) <==> p' == p
  {
    var g := Jobs.GridOf(ctx);
    Jobs.JobsCover(ctx);
    assert Jobs.IsDone(g, i, j);
    p :| Jobs.DoneAt(g, p, i, j);
    forall p' | Jobs.DoneAt(g, p', i, j)
      ensures p' == p
    {
      Jobs.DoneOnce(g, p, p', i, j);
    }
  }

  /** The task that a near-collision belongs to, and its partial hashes. */
  lemma CollisionHasTask(bits: nat, data: Data, a: Preimage, b: Preimage, c: Preimage)
    returns (i: nat, j: nat, u: Triple)
    requires bits <= 31 && Given(data.foo.runs, a) && Given(data.bar.runs, b) && Given(data.foobar.runs, c)
    requires HashesCollide(data.foo.hash(a), data.bar.hash(b), data.foobar.hash(c), bits)
    ensures i < Pow2(bits) && j < Pow2(bits) && IsCollision(bits, data, i, j, u)
    ensures forall i', j', u' :: Collides(bits, data, i', j', a, b, c, u') <==> i' == i && j' == j && u' == u
  {
    var f, g, h := data.foo.hash(a), data.bar.hash(b), data.foobar.hash(c);
    i, j := NumberOf(PartitioningKey(bits, f), bits), NumberOf(PartitioningKey(bits, g), bits);
    u := Triple(PartialHash(f), PartialHash(g), PartialHash(h));
    assert Collides(bits, data, i, j, a, b, c, u);
  }

  lemma CollisionIsReported(bits: nat, data: Data, l: nat, results: Results, i: nat, j: nat, u: Triple)
    requires bits <= 31 && Ready(bits, data, l) && AllDone(bits, data, results) && i < Pow2(bits) && j < Pow2(bits)
    requires IsCollision(bits, data, i, j, u)
    ensures multiset(results(i, j))[u] == 1
  {
    TaskFindsCollisions(bits, data, l, i, j, results(i, j), u);
  }

  /** The whole computation. Every near-collision of the preimages belongs to exactly one task, which reports it once;
      if the sizes of the grids divide each other, this task is done at exactly one place. */
  lemma EveryCollisionIsFound(ctx: TaskGroups.Context, bits: nat, data: Data, l: nat, results: Results,
                              a: Preimage, b: Preimage, c: Preimage)
    returns (i: nat, j: nat, u: Triple, p: Jobs.Place)
    requires ctx.cpuGridSize > 0 && ctx.perCoreGridSize > 0 && ctx.tgPerJob > 0
    requires bits <= 31 && ctx.taskGridSize == Pow2(bits) && Jobs.SizesDivide(ctx)
    requires Ready(bits, data, l) && AllDone(bits, data, results)
    requires Given(data.foo.runs, a) && Given(data.bar.runs, b) && Given(data.foobar.runs, c)
    requires HashesCollide(data.foo.hash(a), data.bar.hash(b), data.foobar.hash(c), bits)
    ensures i < Pow2(bits) && j < Pow2(bits) && multiset(results(i, j))[u] == 1
    ensures forall i', j', u' :: Collides(bits, data, i', j', a, b, c, u') <==> i' == i && j' == j && u' == u
    ensures forall p' :: Jobs.DoneAt(Jobs.GridOf(ctx), p', i, j) <==> p' == p
  {
    i, j, u := CollisionHasTask(bits, data, a, b, c);
    CollisionIsReported(bits, data, l, results, i, j, u);
    p := DoneAtOnePlace(ctx, i, j);
  }
}
