/** The merger: P sorted streams become one sorted file of distinct hashes. */
module Merger {
  import opened Linear
  import opened LoserTree

  const SENTINEL: nat := 0xffff_ffff_ffff_ffff
  const OUT_BUFFER_SIZE: nat := 131072
  const IN_BUFFER_SIZE: nat := 52428

  /** A file that the merger accepts: sorted, without the two hashes it keeps for itself. */
  ghost predicate GoodFile(file: seq<Entry>) {
    && (forall k | 0 <= k < |file| :: 0 < file[k].hash < 0xffff_ffff_ffff_ffff)
    && forall k, k' | 0 <= k < k' < |file| :: file[k].hash <= file[k'].hash
  }

  /** An input file and its buffer. */
  class Stream {
    const file: seq<Entry>
    const buffer: array<Entry>
    var size: nat
    var ptr: nat
    var position: nat

    /** The buffer holds the last block that was read. */
    ghost predicate Valid()
      reads this, buffer
    {
      && buffer.Length == IN_BUFFER_SIZE && ptr <= size <= IN_BUFFER_SIZE && size <= position <= |file|
      && forall k | 0 <= k < size :: buffer[k] == file[position - size + k]
    }

    /** How many entries have been taken. */
    ghost function Taken(): (n: nat)
      requires ptr <= size <= position
      reads this
    {
      position - (size - ptr)
    }

    constructor (file: seq<Entry>)
      ensures Valid() && this.file == file && fresh(buffer) && Taken() == 0
    {
      this.file := file;
      buffer := new Entry[IN_BUFFER_SIZE](_ => DUMMY);
      size, ptr, position := 0, 0, 0;
    }

    /** fread: the next block. */
    method Refill()
      requires Valid() && ptr == size
      modifies this, buffer
      ensures Valid() && Taken() == old(Taken()) && ptr == 0 && (0 < size <==> Taken() < |file|)
    {
      var left := |file| - position;
      var n := if left < IN_BUFFER_SIZE then left else IN_BUFFER_SIZE;
      for k := 0 to n
        invariant position == old(position) && forall k' | 0 <= k' < k :: buffer[k'] == file[position + k']
      {
        buffer[k] := file[position + k];
      }
      size, position, ptr := n, position + n, 0;
    }

    /** The next entry, if there is one. */
    method Next() returns (found: bool, e: Entry)
      requires Valid()
      modifies this, buffer
      ensures Valid() && (found <==> old(Taken()) < |file|)
      ensures found ==> e == file[old(Taken())]
      ensures Taken() == if found then old(Taken()) + 1 else old(Taken())
    {
      if ptr == size {
        Refill();
      }
      if size == 0 {
        return false, DUMMY;
      }
      e := buffer[ptr];
      ptr := ptr + 1;
      return true, e;
    }
  }

  /** The output file and its buffer. */
  class Output {
    const buffer: array<nat>
    var ptr: nat
    var file: seq<nat>

    ghost predicate Valid()
      reads this
    {
      buffer.Length == OUT_BUFFER_SIZE && ptr <= OUT_BUFFER_SIZE
    }

    /** What has been written, on disk or not. */
    ghost function Contents(): (s: seq<nat>)
      requires Valid()
      reads this, buffer
    {
      file + buffer[..ptr]
    }

    constructor ()
      ensures Valid() && fresh(buffer) && Contents() == []
    {
      buffer := new nat[OUT_BUFFER_SIZE];
      ptr, file := 0, [];
    }

    method Flush()
      requires Valid()
      modifies this
      ensures Valid() && Contents() == old(Contents()) == file && ptr == 0
    {
      file := file + buffer[..ptr];
      ptr := 0;
    }

    method Put(h: nat)
      requires Valid() && ptr < OUT_BUFFER_SIZE
      modifies this, buffer
      ensures Valid() && Contents() == old(Contents()) + [h]
    {
      buffer[ptr] := h;
      ptr := ptr + 1;
    }
  }

  /** What the entry Q adds to the output and to the counters, when the one before it was `previous`. */
  ghost predicate Emitted(contents: seq<nat>, contents': seq<nat>, Q: Entry, previous: Entry,
                          collisions: nat, duplicates: nat, collisions': nat, duplicates': nat) {
    && contents' == contents + (if Q.hash != previous.hash then [Q.hash] else [])
    && collisions' == collisions + (if Q.hash == previous.hash && Q.preimage != previous.preimage then 1 else 0)
    && duplicates' == duplicates + (if Q == previous then 1 else 0)
  }

  /** Writes the champion, unless its hash has been written already. */
  method Emit(out: Output, Q: Entry, previous: Entry, collisions: nat, duplicates: nat)
    returns (collisions': nat, duplicates': nat)
    requires out.Valid()
    modifies out, out.buffer
    ensures out.Valid()
    ensures Emitted(old(out.Contents()), out.Contents(), Q, previous, collisions, duplicates, collisions', duplicates')
  {
    collisions', duplicates' := collisions, duplicates;
    if out.ptr == OUT_BUFFER_SIZE {
      out.Flush();
    }
    if Q.hash != previous.hash {
      out.Put(Q.hash);
    } else if Q.preimage.counter == previous.preimage.counter && Q.preimage.nonce == previous.preimage.nonce {
      duplicates' := duplicates + 1;
    } else {
      collisions' := collisions + 1;
    }
  }

  /** The climb: a new entry of stream j is played against the losers on its path. */
  method Climb(loser: array<Entry>, origin: array<nat>, e: Entry, j: nat, ghost s0: Tree, ghost first: bool)
    returns (Q: Entry, i: nat, ghost s: Tree)
    requires s0.loser == loser[..] && s0.origin == origin[..] && Rising(s0, j, first, loser.Length + j, e, j)
    modifies loser, origin
    ensures Consistent(s) && Champion(s, Q, i) && s.loser == loser[..] && s.origin == origin[..] && s.cur == s0.cur
    ensures s.win[loser.Length..] == s0.win[loser.Length..]
  {
    var P := loser.Length;
    Q, i, s := e, j, s0;
    var T := (P + j) / 2;
    ghost var c, rising := P + j, true;
    while T >= 1
      invariant T == c / 2 && 1 <= c < 2 * P && Shape(s) && s.loser == loser[..] && s.origin == origin[..]
      invariant s.cur == s0.cur && s.win[P..] == s0.win[P..]
      invariant if rising then Rising(s, j, first, c, Q, i) else Settled(s, Q, i)
    {
      ghost var s', rising' := ClimbStep(s, j, first, rising, T, c, Q, i);
      if loser[T].hash < Q.hash {
        var foo, bar := loser[T], origin[T];
        loser[T], origin[T] := Q, i;
        Q, i := foo, bar;
      }
      s, rising := s', rising';
      c, T := T, T / 2;
    }
    if rising {
      Crowned(s, j, first, Q, i);
    }
  }

  // The abstract state of the merge.

  /** The entries of the prefixes of the files. */
  ghost function Consumed(files: seq<seq<Entry>>, done: seq<nat>): (m: multiset<Entry>)
    requires |done| == |files| && forall j | 0 <= j < |files| :: done[j] <= |files[j]|
  {
    if files == [] then multiset{} else
    var n := |files| - 1;
    Consumed(files[..n], done[..n]) + multiset(files[n][..done[n]])
  }

  /** All the entries of the files. */
  ghost function Entries(files: seq<seq<Entry>>): (m: multiset<Entry>) {
    if files == [] then multiset{} else Entries(files[..|files| - 1]) + multiset(files[|files| - 1])
  }

  lemma {:induction false} ConsumedNext(files: seq<seq<Entry>>, done: seq<nat>, i: nat)
    requires |done| == |files| && forall j | 0 <= j < |files| :: done[j] <= |files[j]|
    requires i < |files| && done[i] < |files[i]|
    ensures Consumed(files, done[i := done[i] + 1]) == Consumed(files, done) + multiset{files[i][done[i]]}
  {
    var n := |files| - 1;
    var after := done[i := done[i] + 1];
    if i == n {
      assert after[..n] == done[..n];
      assert files[n][..done[n] + 1] == files[n][..done[n]] + [files[n][done[n]]];
    } else {
      ConsumedNext(files[..n], done[..n], i);
      assert after[..n] == done[..n][i := done[i] + 1];
    }
  }

  lemma {:induction false} ConsumedNothing(files: seq<seq<Entry>>, done: seq<nat>)
    requires |done| == |files| && forall j | 0 <= j < |files| :: done[j] == 0
    ensures Consumed(files, done) == multiset{}
  {
    if files != [] {
      ConsumedNothing(files[..|files| - 1], done[..|files| - 1]);
    }
  }

  lemma {:induction false} ConsumedAll(files: seq<seq<Entry>>, done: seq<nat>)
    requires |done| == |files| && forall j | 0 <= j < |files| :: done[j] == |files[j]|
    ensures Consumed(files, done) == Entries(files)
  {
    if files != [] {
      var n := |files| - 1;
      ConsumedAll(files[..n], done[..n]);
      assert files[n][..done[n]] == files[n];
    }
  }

  lemma {:induction false} ConsumedAtMost(files: seq<seq<Entry>>, done: seq<nat>)
    requires |done| == |files| && forall j | 0 <= j < |files| :: done[j] <= |files[j]|
    ensures |Consumed(files, done)| <= |Entries(files)|
  {
    if files != [] {
      var n := |files| - 1;
      ConsumedAtMost(files[..n], done[..n]);
    }
  }

  ghost predicate Sorted(log: seq<Entry>) {
    forall k, k' | 0 <= k < k' < |log| :: log[k].hash <= log[k'].hash
  }

  /** The hashes of a sorted list, each of them once. */
  ghost function Distinct(log: seq<Entry>): (hs: seq<nat>) {
    if log == [] then [] else
    var n := |log| - 1;
    Distinct(log[..n]) + if n > 0 && log[n - 1].hash == log[n].hash then [] else [log[n].hash]
  }

  /** How often an entry follows an identical one. */
  ghost function Repeats(log: seq<Entry>): (n: nat) {
    if |log| < 2 then 0 else
    var n := |log| - 1;
    Repeats(log[..n]) + if log[n - 1] == log[n] then 1 else 0
  }

  /** How often an entry follows one with the same hash and another preimage. */
  ghost function Clashes(log: seq<Entry>): (n: nat) {
    if |log| < 2 then 0 else
    var n := |log| - 1;
    Clashes(log[..n]) + if log[n - 1].hash == log[n].hash && log[n - 1].preimage != log[n].preimage then 1 else 0
  }

  /** Every entry is written, or counted once. */
  lemma {:induction false} DistinctCount(log: seq<Entry>)
    ensures |Distinct(log)| + Repeats(log) + Clashes(log) == |log|
  {
    if log != [] {
      var n := |log| - 1;
      DistinctCount(log[..n]);
      assert |log| >= 2 && log[n - 1].hash == log[n].hash ==> (log[n - 1] == log[n]
        <==> log[n - 1].preimage == log[n].preimage);
    }
  }

  /** Entries with the same hash have the same preimage. */
  ghost predicate NoClash(entries: multiset<Entry>) {
    forall e, f | e in entries && f in entries && e.hash == f.hash :: e.preimage == f.preimage
  }

  ghost predicate NoneClash(log: seq<Entry>) {
    forall i, j | 0 <= i < |log| && 0 <= j < |log| && log[i].hash == log[j].hash :: log[i].preimage == log[j].preimage
  }

  lemma {:induction false} NeighboursTell(log: seq<Entry>)
    requires Sorted(log)
    ensures Clashes(log) == 0 <==> NoneClash(log)
  {
    if |log| >= 2 {
      var n := |log| - 1;
      NeighboursTell(log[..n]);
      LastNeighbour(log, n);
    }
  }

  lemma LastNeighbour(log: seq<Entry>, n: nat)
    requires Sorted(log) && 1 <= n == |log| - 1
    ensures NoneClash(log) <==>
            NoneClash(log[..n]) && (log[n - 1].hash == log[n].hash ==> log[n - 1].preimage == log[n].preimage)
  {
    if NoneClash(log[..n]) && (log[n - 1].hash == log[n].hash ==> log[n - 1].preimage == log[n].preimage) {
      forall i | 0 <= i < n && log[i].hash == log[n].hash
        ensures log[i].preimage == log[n].preimage
      {
        assert log[i].hash <= log[n - 1].hash <= log[n].hash;
        assert log[..n][i].hash == log[..n][n - 1].hash;
      }
    }
    if NoneClash(log) {
      forall i, j | 0 <= i < n && 0 <= j < n && log[..n][i].hash == log[..n][j].hash
        ensures log[..n][i].preimage == log[..n][j].preimage
      {
        assert log[i].hash == log[j].hash;
      }
    }
  }

  /** In a sorted list, clashes show up between neighbours. */
  lemma ClashesAreClashes(log: seq<Entry>)
    requires Sorted(log)
    ensures Clashes(log) == 0 <==> NoClash(multiset(log))
  {
    NeighboursTell(log);
    if NoClash(multiset(log)) {
      forall i, j | 0 <= i < |log| && 0 <= j < |log| && log[i].hash == log[j].hash
        ensures log[i].preimage == log[j].preimage
      {
        assert log[i] in multiset(log) && log[j] in multiset(log);
      }
    }
    if NoneClash(log) {
      forall e, f | e in multiset(log) && f in multiset(log) && e.hash == f.hash
        ensures e.preimage == f.preimage
      {
        var i :| 0 <= i < |log| && log[i] == e;
        var j :| 0 <= j < |log| && log[j] == f;
      }
    }
  }

  lemma {:induction false} NothingRepeats(log: seq<Entry>)
    requires forall e :: multiset(log)[e] <= 1
    ensures Repeats(log) == 0
  {
    if |log| >= 2 {
      var n := |log| - 1;
      assert log == log[..n] + [log[n]];
      forall e
        ensures multiset(log[..n])[e] <= 1
      {
        assert multiset(log)[e] == multiset(log[..n])[e] + multiset{log[n]}[e];
      }
      NothingRepeats(log[..n]);
      assert log[..n][n - 1] in multiset(log[..n]);
      assert multiset(log)[log[n]] == multiset(log[..n])[log[n]] + 1;
    }
  }

  ghost predicate HasHash(log: seq<Entry>, h: nat) {
    exists k :: 0 <= k < |log| && log[k].hash == h
  }

  lemma {:induction false} DistinctMembers(log: seq<Entry>, h: nat)
    ensures h in Distinct(log) <==> HasHash(log, h)
  {
    if log != [] {
      var n := |log| - 1;
      DistinctMembers(log[..n], h);
      if HasHash(log[..n], h) {
        var k :| 0 <= k < n && log[..n][k].hash == h;
        assert log[k].hash == h;
      }
      if n > 0 && log[n - 1].hash == log[n].hash == h {
        assert log[..n][n - 1].hash == h;
      }
      assert log[n].hash == h ==> HasHash(log, h);
    }
  }

  ghost predicate Increasing(hs: seq<nat>) {
    forall a, b | 0 <= a < b < |hs| :: hs[a] < hs[b]
  }

  lemma {:induction false} DistinctIncreasing(log: seq<Entry>)
    requires Sorted(log)
    ensures Increasing(Distinct(log))
    ensures log != [] ==> Distinct(log) != [] && Distinct(log)[|Distinct(log)| - 1] == log[|log| - 1].hash
  {
    if log != [] {
      var n := |log| - 1;
      DistinctIncreasing(log[..n]);
      var hs := Distinct(log[..n]);
      assert forall a | 0 <= a < |hs| :: hs[a] <= hs[|hs| - 1];
    }
  }

  /** A stream: not started, at an entry that is in the tree, or at its end. */
  ghost predicate StreamOk(file: seq<Entry>, started: bool, cur: Entry, taken: nat, done: nat) {
    && done <= |file|
    && if !started then taken == done == 0
       else if done < |file| then cur == file[done] && taken == done + 1
       else cur.hash == SENTINEL && taken == done
  }

  ghost predicate StreamsOk(files: seq<seq<Entry>>, s: Tree, taken: seq<nat>, done: seq<nat>) {
    && Shape(s) && |files| == |taken| == |done| == |s.loser|
    && forall j | 0 <= j < |files| :: StreamOk(files[j], Started(s, j), s.cur[j], taken[j], done[j])
  }

  /** The entries that have come out so far: sorted, and not above those that are still to come. */
  ghost predicate LogOk(files: seq<seq<Entry>>, s: Tree, done: seq<nat>, log: seq<Entry>)
    requires Shape(s) && |files| == |done| == |s.loser| && forall j | 0 <= j < |files| :: done[j] <= |files[j]|
  {
    && Sorted(log) && multiset(log) == Consumed(files, done)
    && (log != [] ==> forall j | 0 <= j < |files| :: Started(s, j) && log[|log| - 1].hash <= s.cur[j].hash)
  }

  ghost function StartedSet(s: Tree): (js: set<nat>)
    requires Shape(s)
  {
    set j | 0 <= j < |s.loser| && Started(s, j)
  }

  lemma LeastOfAll(s: Tree, Q: Entry, i: nat)
    requires Consistent(s) && Champion(s, Q, i) && Started(s, i)
    ensures forall j | 0 <= j < |s.loser| :: Started(s, j) && Q.hash <= s.cur[j].hash
  {
    forall j | 0 <= j < |s.loser|
      ensures Started(s, j) && Q.hash <= s.cur[j].hash
    {
      ChampionIsLeast(s, Q, i, j);
    }
  }

  /** The champion comes out. If it is an entry and not a dummy, it is the next one in sorted order. */
  lemma ComesOut(files: seq<seq<Entry>>, s: Tree, Q: Entry, i: nat, taken: seq<nat>, done: seq<nat>, log: seq<Entry>)
    requires StreamsOk(files, s, taken, done) && LogOk(files, s, done, log)
    requires i < |files| && Started(s, i) && Q == s.cur[i] && Q.hash < SENTINEL
    ensures done[i] < |files[i]| && Q == files[i][done[i]] && taken[i] == done[i] + 1 && Sorted(log + [Q])
    ensures multiset(log + [Q]) == Consumed(files, done[i := done[i] + 1])
  {
    assert StreamOk(files[i], Started(s, i), s.cur[i], taken[i], done[i]);
    ConsumedNext(files, done, i);
  }

  /** The new entry of stream i: the next one, or the sentinel. */
  ghost predicate Pulled(file: seq<Entry>, taken: nat, e: Entry, taken': nat) {
    if taken < |file| then e == file[taken] && taken' == taken + 1 else e.hash == SENTINEL && taken' == taken
  }

  /** The streams after a new entry of stream i has gone into the tree. */
  ghost predicate Replaced(s: Tree, i: nat, e: Entry, s': Tree)
    requires Shape(s) && i < |s.loser|
  {
    && Shape(s') && |s'.loser| == |s.loser| && s'.cur == s.cur[i := e]
    && forall j | 0 <= j < |s.loser| :: Started(s', j) <==> Started(s, j) || j == i
  }

  lemma StreamsTurn(files: seq<seq<Entry>>, s: Tree, i: nat, taken: seq<nat>, done: seq<nat>, e: Entry, n: nat, d: nat,
                    s': Tree)
    requires StreamsOk(files, s, taken, done) && i < |s.loser| && Replaced(s, i, e, s')
      && StreamOk(files[i], true, e, n, d)
    ensures StreamsOk(files, s', taken[i := n], done[i := d])
  {
    forall j | 0 <= j < |files|
      ensures StreamOk(files[j], Started(s', j), s'.cur[j], taken[i := n][j], done[i := d][j])
    {
      assert StreamOk(files[j], Started(s, j), s.cur[j], taken[j], done[j]);
    }
  }

  /** One turn of the main loop, with an entry as champion. */
  lemma EntryTurn(files: seq<seq<Entry>>, s: Tree, Q: Entry, i: nat, taken: seq<nat>, done: seq<nat>, log: seq<Entry>,
                  e: Entry, n: nat, s': Tree)
    requires Consistent(s) && Champion(s, Q, i) && StreamsOk(files, s, taken, done) && LogOk(files, s, done, log)
      && Q.hash < SENTINEL
    requires Started(s, i) && GoodFile(files[i]) && Pulled(files[i], taken[i], e, n) && Replaced(s, i, e, s')
    ensures done[i] < |files[i]|
    ensures StreamsOk(files, s', taken[i := n], done[i := done[i] + 1])
      && LogOk(files, s', done[i := done[i] + 1], log + [Q])
  {
    ComesOut(files, s, Q, i, taken, done, log);
    LeastOfAll(s, Q, i);
    StreamsTurn(files, s, i, taken, done, e, n, done[i] + 1, s');
  }

  /** One turn of the main loop, with a dummy as champion. */
  lemma DummyTurn(files: seq<seq<Entry>>, s: Tree, i: nat, taken: seq<nat>, done: seq<nat>, log: seq<Entry>, e: Entry,
                  n: nat, s': Tree)
    requires StreamsOk(files, s, taken, done) && LogOk(files, s, done, log)
    requires i < |files| && !Started(s, i) && Pulled(files[i], taken[i], e, n) && Replaced(s, i, e, s')
    ensures log == [] && StreamsOk(files, s', taken[i := n], done) && LogOk(files, s', done, log)
  {
    assert StreamOk(files[i], Started(s, i), s.cur[i], taken[i], done[i]);
    StreamsTurn(files, s, i, taken, done, e, n, 0, s');
    assert done[i := 0] == done;
  }

  /** What has been written and counted, when the entries of the log and n dummies have come out. */
  ghost predicate Written(contents: seq<nat>, collisions: nat, duplicates: nat, previous: Entry, log: seq<Entry>,
                          n: nat) {
    && contents == Distinct(log) && collisions == Clashes(log) && duplicates == n + Repeats(log)
    && previous == if log == [] then DUMMY else log[|log| - 1]
  }

  lemma EntryWritten(contents: seq<nat>, collisions: nat, duplicates: nat, previous: Entry, log: seq<Entry>, n: nat,
                     Q: Entry)
    requires Written(contents, collisions, duplicates, previous, log, n) && Q.hash > 0
    ensures Written(contents + if Q.hash != previous.hash then [Q.hash] else [],
                    collisions + if Q.hash == previous.hash && Q.preimage != previous.preimage then 1 else 0,
                    duplicates + if Q == previous then 1 else 0, Q, log + [Q], n)
  {
    assert (log + [Q])[..|log|] == log;
  }

  /** The streams are open, and what has been taken from them. */
  ghost predicate AllOpen(streams: seq<Stream>, files: seq<seq<Entry>>, taken: seq<nat>)
    reads streams, set j | 0 <= j < |streams| :: streams[j].buffer
  {
    && |streams| == |files| == |taken|
    && (forall j, u | 0 <= j < u < |streams| :: streams[j] != streams[u] && streams[j].buffer != streams[u].buffer)
    && forall j | 0 <= j < |streams| ::
         streams[j].Valid() && streams[j].file == files[j] && streams[j].Taken() == taken[j]
  }

  /** The new entry of stream i: at the end of the file, only the hash of the old one is replaced. */
  method Pull(streams: seq<Stream>, i: nat, Q: Entry, ghost files: seq<seq<Entry>>, ghost taken: seq<nat>)
    returns (e: Entry, ghost n: nat)
    requires AllOpen(streams, files, taken) && i < |streams|
    modifies streams[i], streams[i].buffer
    ensures Pulled(files[i], taken[i], e, n) && AllOpen(streams, files, taken[i := n])
  {
    var found;
    found, e := streams[i].Next();
    n := streams[i].Taken();
    if !found {
      e := Q.(hash := SENTINEL);
    }
  }

  method OpenAll(files: seq<seq<Entry>>) returns (streams: seq<Stream>)
    ensures AllOpen(streams, files, seq(|files|, _ => 0))
    ensures forall j | 0 <= j < |streams| :: fresh(streams[j]) && fresh(streams[j].buffer)
  {
    streams := [];
    for j := 0 to |files|
      invariant AllOpen(streams, files[..j], seq(j, _ => 0))
      invariant forall u | 0 <= u < |streams| :: fresh(streams[u]) && fresh(streams[u].buffer)
    {
      var stream := new Stream(files[j]);
      streams := streams + [stream];
    }
  }

  /** The state of the merge at the head of the main loop. */
  ghost predicate Merging(files: seq<seq<Entry>>, s: Tree, Q: Entry, i: nat, taken: seq<nat>, done: seq<nat>,
                          log: seq<Entry>) {
    Consistent(s) && Champion(s, Q, i) && StreamsOk(files, s, taken, done) && LogOk(files, s, done, log)
  }

  /** What is left to do. */
  ghost function Left(files: seq<seq<Entry>>, s: Tree, log: seq<Entry>): (n: int)
    requires Shape(s)
  {
    |Entries(files)| + |files| - |log| - |StartedSet(s)|
  }

  lemma LeftIsNatural(files: seq<seq<Entry>>, s: Tree, Q: Entry, i: nat, taken: seq<nat>, done: seq<nat>,
                      log: seq<Entry>)
    requires Merging(files, s, Q, i, taken, done, log)
    ensures Left(files, s, log) >= 0
  {
    ConsumedAtMost(files, done);
    assert |multiset(log)| == |log|;
    SubsetCard(StartedSet(s), Below(|files|));
  }

  /** One turn of the main loop: the champion Q of stream i comes out, and e takes its place. */
  lemma Turn(files: seq<seq<Entry>>, s: Tree, Q: Entry, i: nat, taken: seq<nat>, done: seq<nat>, log: seq<Entry>,
             e: Entry, n: nat, s': Tree,
             Q': Entry, i': nat)
    returns (done': seq<nat>, log': seq<Entry>)
    requires Merging(files, s, Q, i, taken, done, log) && Q.hash < SENTINEL
    requires GoodFile(files[i]) && Pulled(files[i], taken[i], e, n) && Replaced(s, i, e, s') && Consistent(s')
      && Champion(s', Q', i')
    ensures Merging(files, s', Q', i', taken[i := n], done', log') && StartedSet(s') == StartedSet(s) + {i}
    ensures if i in StartedSet(s) then log' == log + [Q] && Q.hash > 0 else log' == log == [] && Q == DUMMY
    ensures Left(files, s', log') == Left(files, s, log) - 1
  {
    if Started(s, i) {
      EntryTurn(files, s, Q, i, taken, done, log, e, n, s');
      done', log' := done[i := done[i] + 1], log + [Q];
      assert StartedSet(s') == StartedSet(s);
    } else {
      DummyTurn(files, s, i, taken, done, log, e, n, s');
      done', log' := done, log;
      assert StartedSet(s') == StartedSet(s) + {i};
    }
  }

  lemma WrittenTurn(contents: seq<nat>, collisions: nat, duplicates: nat, previous: Entry, log: seq<Entry>, Q: Entry,
                    i: nat, log': seq<Entry>, js: set<nat>, contents': seq<nat>, collisions': nat, duplicates': nat)
    requires Written(contents, collisions, duplicates, previous, log, |js|)
    requires Emitted(contents, contents', Q, previous, collisions, duplicates, collisions', duplicates')
    requires if i in js then log' == log + [Q] && Q.hash > 0 else log' == log == [] && Q == DUMMY
    ensures Written(contents', collisions', duplicates', Q, log', |js + {i}|)
  {
    if i in js {
      EntryWritten(contents, collisions, duplicates, previous, log, |js|, Q);
      assert js + {i} == js;
    }
  }

  /** When the champion is the sentinel, all the files have been merged. */
  lemma AllOut(files: seq<seq<Entry>>, s: Tree, Q: Entry, i: nat, taken: seq<nat>, done: seq<nat>, log: seq<Entry>)
    requires Merging(files, s, Q, i, taken, done, log) && Q.hash >= SENTINEL && forall j | 0 <= j < |files| ::
      GoodFile(files[j])
    ensures Sorted(log) && multiset(log) == Entries(files) && |StartedSet(s)| == |files|
  {
    LeastOfAll(s, Q, i);
    forall j | 0 <= j < |files|
      ensures done[j] == |files[j]|
    {
      assert StreamOk(files[j], Started(s, j), s.cur[j], taken[j], done[j]);
    }
    ConsumedAll(files, done);
    assert StartedSet(s) == Below(|files|);
  }

  lemma ReplacedInClimb(s: Tree, i: nat, e: Entry, s': Tree)
    requires Shape(s) && i < |s.loser| && Shape(s') && |s'.loser| == |s.loser| && s'.cur == Renewed(s, i, e).cur
    requires s'.win[|s.loser|..] == Renewed(s, i, e).win[|s.loser|..]
    ensures Replaced(s, i, e, s')
  {
    forall j | 0 <= j < |s.loser|
      ensures Started(s', j) <==> Started(s, j) || j == i
    {
      assert s'.win[|s.loser|..][j] == s'.win[|s.loser| + j];
      assert Renewed(s, i, e).win[|s.loser|..][j] == Renewed(s, i, e).win[|s.loser| + j];
    }
  }

  /** The tree before anything has been read: all its entries are dummies, and node j stands for stream j. */
  ghost function Seeded(P: nat): (s: Tree) {
    Tree(seq(P, _ => DUMMY), seq(P, j => j), seq(2 * P, _ => -1), seq(P, _ => Entry(SENTINEL, Preimage(0, 0))))
  }

  lemma SeededIsConsistent(files: seq<seq<Entry>>)
    requires |files| >= 1
    ensures var none := seq(|files|, _ => 0); Merging(files, Seeded(|files|), DUMMY, 0, none, none, [])
    ensures StartedSet(Seeded(|files|)) == {}
  {
    ConsumedNothing(files, seq(|files|, _ => 0));
  }

  /** The new champion, once the entry e of stream i has gone into the tree. */
  method Replace(loser: array<Entry>, origin: array<nat>, e: Entry, j: nat, ghost s: Tree, ghost Q0: Entry)
    returns (Q: Entry, i: nat, ghost s': Tree)
    requires s.loser == loser[..] && s.origin == origin[..] && Consistent(s) && Champion(s, Q0, j) && e.hash > 0
    modifies loser, origin
    ensures Consistent(s') && Champion(s', Q, i) && s'.loser == loser[..] && s'.origin == origin[..]
      && Replaced(s, j, e, s')
  {
    StartClimb(s, Q0, j, e);
    Q, i, s' := Climb(loser, origin, e, j, Renewed(s, j, e), !Started(s, j));
    ReplacedInClimb(s, j, e, s');
  }

  /** The arrays of the merger do not overlap. */
  ghost predicate Apart(streams: seq<Stream>, out: Output, loser: array<Entry>, origin: array<nat>) {
    out.buffer != origin && forall j | 0 <= j < |streams| :: streams[j].buffer != loser
  }

  /** The champion is replaced by the next entry of its stream, and the new champion is found. */
  method Advance(streams: seq<Stream>, loser: array<Entry>, origin: array<nat>, Q: Entry, i: nat,
                 ghost files: seq<seq<Entry>>, ghost s: Tree, ghost taken: seq<nat>, ghost done: seq<nat>,
                 ghost log: seq<Entry>)
    returns (Q': Entry, i': nat, ghost s': Tree, ghost taken': seq<nat>, ghost done': seq<nat>, ghost log': seq<Entry>)
    requires s.loser == loser[..] && s.origin == origin[..] && Merging(files, s, Q, i, taken, done, log)
      && Q.hash < SENTINEL
    requires AllOpen(streams, files, taken) && GoodFile(files[i]) && forall j | 0 <= j < |streams| ::
      streams[j].buffer != loser
    modifies loser, origin, streams[i], streams[i].buffer
    ensures s'.loser == loser[..] && s'.origin == origin[..] && Merging(files, s', Q', i', taken', done', log')
    ensures AllOpen(streams, files, taken') && StartedSet(s') == StartedSet(s) + {i}
    ensures if i in StartedSet(s) then log' == log + [Q] && Q.hash > 0 else log' == log == [] && Q == DUMMY
    ensures Left(files, s', log') == Left(files, s, log) - 1
  {
    var e;
    ghost var n;
    e, n := Pull(streams, i, Q, files, taken);
    taken' := taken[i := n];
    Q', i', s' := Replace(loser, origin, e, i, s, Q);
    done', log' := Turn(files, s, Q, i, taken, done, log, e, n, s', Q', i');
  }

  /** The champion is written out. The streams and the tree are left alone. */
  method WriteOut(streams: seq<Stream>, out: Output, loser: array<Entry>, origin: array<nat>, Q: Entry, previous: Entry,
                  collisions: nat, duplicates: nat, ghost files: seq<seq<Entry>>, ghost taken: seq<nat>)
    returns (collisions': nat, duplicates': nat)
    requires AllOpen(streams, files, taken) && out.Valid() && Apart(streams, out, loser, origin)
    modifies out, out.buffer
    ensures out.Valid() && AllOpen(streams, files, taken)
    ensures loser[..] == old(loser[..]) && origin[..] == old(origin[..])
    ensures Emitted(old(out.Contents()), out.Contents(), Q, previous, collisions, duplicates, collisions', duplicates')
  {
    collisions', duplicates' := Emit(out, Q, previous, collisions, duplicates);
  }

  /** One turn of the main loop. */
  method OneTurn(streams: seq<Stream>, out: Output, loser: array<Entry>, origin: array<nat>, Q: Entry, previous: Entry,
                 i: nat, collisions: nat, duplicates: nat,
                 ghost files: seq<seq<Entry>>, ghost s: Tree, ghost taken: seq<nat>, ghost done: seq<nat>,
                 ghost log: seq<Entry>)
    returns (Q': Entry, i': nat, collisions': nat, duplicates': nat,
             ghost s': Tree, ghost taken': seq<nat>, ghost done': seq<nat>, ghost log': seq<Entry>)
    requires s.loser == loser[..] && s.origin == origin[..] && Merging(files, s, Q, i, taken, done, log)
      && Q.hash < SENTINEL
    requires AllOpen(streams, files, taken) && out.Valid() && Apart(streams, out, loser, origin) && GoodFile(files[i])
    requires Written(out.Contents(), collisions, duplicates, previous, log, |StartedSet(s)|)
    modifies out, out.buffer, loser, origin, streams[i], streams[i].buffer
    ensures s'.loser == loser[..] && s'.origin == origin[..] && Merging(files, s', Q', i', taken', done', log')
    ensures AllOpen(streams, files, taken') && out.Valid()
    ensures Written(out.Contents(), collisions', duplicates', Q, log', |StartedSet(s')|)
    ensures Left(files, s', log') < Left(files, s, log)
  {
    ghost var contents := out.Contents();
    collisions', duplicates' := WriteOut(streams, out, loser, origin, Q, previous, collisions, duplicates, files,
      taken);
    ghost var contents' := out.Contents();
    Q', i', s', taken', done', log' := Advance(streams, loser, origin, Q, i, files, s, taken, done, log);
    WrittenTurn(contents, collisions, duplicates, previous, log, Q, i, log', StartedSet(s), contents', collisions',
      duplicates');
  }

  /** The main loop. */
  method MergeLoop(streams: seq<Stream>, out: Output, loser: array<Entry>, origin: array<nat>,
                   ghost files: seq<seq<Entry>>)
    returns (collisions: nat, duplicates: nat, ghost log: seq<Entry>)
    requires |files| >= 1 && AllOpen(streams, files, seq(|files|, _ => 0)) && forall j | 0 <= j < |files| ::
      GoodFile(files[j])
    requires loser[..] == Seeded(|files|).loser && origin[..] == Seeded(|files|).origin
    requires out.Valid() && out.Contents() == [] && Apart(streams, out, loser, origin)
    modifies out, out.buffer, loser, origin, set j | 0 <= j < |streams| :: streams[j], set j | 0 <= j < |streams| ::
      streams[j].buffer
    ensures out.Valid() && Sorted(log) && multiset(log) == Entries(files)
    ensures out.Contents() == Distinct(log) && collisions == Clashes(log) && duplicates == |files| + Repeats(log)
  {
    var Q, previous, i := DUMMY, DUMMY, 0;
    collisions, duplicates, log := 0, 0, [];
    ghost var s, taken, done := Seeded(|files|), seq(|files|, _ => 0), seq(|files|, _ => 0);
    SeededIsConsistent(files);
    while Q.hash < SENTINEL
      invariant s.loser == loser[..] && s.origin == origin[..] && Merging(files, s, Q, i, taken, done, log)
      invariant AllOpen(streams, files, taken) && out.Valid()
      invariant Written(out.Contents(), collisions, duplicates, previous, log, |StartedSet(s)|)
      decreases Left(files, s, log)
    {
      LeftIsNatural(files, s, Q, i, taken, done, log);
      var next, j;
      next, j, collisions, duplicates, s, taken, done, log
        := OneTurn(streams, out, loser, origin, Q, previous, i, collisions, duplicates, files, s, taken, done, log);
      previous, Q, i := Q, next, j;
    }
    AllOut(files, s, Q, i, taken, done, log);
  }

  /** Some file holds an entry with the hash h. */
  ghost predicate InSomeFile(files: seq<seq<Entry>>, h: nat) {
    exists j :: 0 <= j < |files| && HasHash(files[j], h)
  }

  lemma {:induction false} EntriesMembers(files: seq<seq<Entry>>, e: Entry)
    ensures e in Entries(files) <==> exists j :: 0 <= j < |files| && e in files[j]
  {
    if files != [] {
      var n := |files| - 1;
      EntriesMembers(files[..n], e);
      if j :| 0 <= j < n && e in files[..n][j] {
        assert e in files[j];
      }
    }
  }

  /** A sorted arrangement of the entries of the files has the hashes of the files. */
  lemma HashesOfFiles(files: seq<seq<Entry>>, log: seq<Entry>, h: nat)
    requires multiset(log) == Entries(files)
    ensures h in Distinct(log) <==> InSomeFile(files, h)
  {
    DistinctMembers(log, h);
    if HasHash(log, h) {
      var k :| 0 <= k < |log| && log[k].hash == h;
      assert log[k] in multiset(log);
      EntriesMembers(files, log[k]);
      var j :| 0 <= j < |files| && log[k] in files[j];
      assert HasHash(files[j], h);
    }
    if InSomeFile(files, h) {
      var j :| 0 <= j < |files| && HasHash(files[j], h);
      var k :| 0 <= k < |files[j]| && files[j][k].hash == h;
      EntriesMembers(files, files[j][k]);
      assert files[j][k] in multiset(log);
    }
  }

  /** What the merger promises: the hashes of the files, in increasing order and each of them once. All the
      entries are accounted for; the dummies count as duplicates, which is why the report subtracts P. */
  lemma MergeMeaning(files: seq<seq<Entry>>, log: seq<Entry>, collisions: nat, duplicates: nat)
    requires Sorted(log) && multiset(log) == Entries(files) && collisions == Clashes(log)
      && duplicates == |files| + Repeats(log)
    ensures Increasing(Distinct(log)) && forall h: nat :: h in Distinct(log) <==> InSomeFile(files, h)
    ensures |Distinct(log)| + collisions + (duplicates - |files|) == |Entries(files)|
    ensures collisions == 0 <==> NoClash(Entries(files))
    ensures (forall e :: Entries(files)[e] <= 1) ==> duplicates == |files|
  {
    ClashesAreClashes(log);
    assert multiset(log) == Entries(files);
    if forall e :: Entries(files)[e] <= 1 {
      NothingRepeats(log);
    }
    DistinctIncreasing(log);
    DistinctCount(log);
    assert |multiset(log)| == |log|;
    forall h: nat
      ensures h in Distinct(log) <==> InSomeFile(files, h)
    {
      HashesOfFiles(files, log, h);
    }
  }

  /** The hashes of the files, in order and without repetitions. */
  ghost predicate IsUnion(files: seq<seq<Entry>>, hashes: seq<nat>) {
    Increasing(hashes) && forall h: nat :: h in hashes <==> InSomeFile(files, h)
  }

  /** The merger, for P = |files| input files. */
  method Merge(files: seq<seq<Entry>>) returns (file: seq<nat>, collisions: nat, duplicates: nat, ghost log: seq<Entry>)
    requires |files| >= 1 && forall j | 0 <= j < |files| :: GoodFile(files[j])
    ensures IsUnion(files, file)
    ensures Sorted(log) && multiset(log) == Entries(files)
    ensures collisions == Clashes(log) && duplicates == |files| + Repeats(log)
    ensures |file| + collisions + (duplicates - |files|) == |Entries(files)|
    ensures collisions == 0 <==> NoClash(Entries(files))
    ensures (forall e :: Entries(files)[e] <= 1) ==> duplicates == |files|
  {
    var streams := OpenAll(files);
    var out := new Output();
    var loser := new Entry[|files|](_ => DUMMY);
    var origin := new nat[|files|](j => j);
    assert loser[..] == Seeded(|files|).loser && origin[..] == Seeded(|files|).origin;
    collisions, duplicates, log := MergeLoop(streams, out, loser, origin, files);
    out.Flush();
    file := out.file;
    MergeMeaning(files, log, collisions, duplicates);
  }
}
