/** Multi-threaded radix partitioning: every thread scatters its share of the items into buckets of its
    own, one for each value of the p top bits. */
module Partition {
  import opened Words
  import opened Numbers
  import opened Subjoin

  /** x >> (64 - p) */
  function Key(x: Word, p: nat): (h: nat)
    requires p <= 64
    ensures h < Pow2(p)
  {
    NumberOf(Shr(x, 64 - p), p)
  }

  /** The key is the number that the word stands for, divided by 2^(64 - p). */
  lemma KeyIsQuotient(x: Word, p: nat)
    requires p <= 64
    ensures Key(x, p) == NumberOf(x, 64) / Pow2(64 - p)
  {
    ShiftDivides(x, 64 - p, 64);
  }

  /** The items whose p top bits are h, in order. */
  ghost function WithKey(vs: seq<Word>, h: nat, p: nat): (r: seq<Word>)
    requires p <= 64
    ensures |r| <= |vs|
  {
    if vs == [] then [] else
    var n := |vs| - 1;
    WithKey(vs[..n], h, p) + if Key(vs[n], p) == h then [vs[n]] else []
  }

  lemma {:induction false} WithKeyConcat(vs: seq<Word>, ws: seq<Word>, h: nat, p: nat)
    requires p <= 64
    ensures WithKey(vs + ws, h, p) == WithKey(vs, h, p) + WithKey(ws, h, p)
  {
    if ws == [] {
      assert vs + ws == vs;
    } else {
      var n := |ws| - 1;
      var us := vs + ws;
      WithKeyConcat(vs, ws[..n], h, p);
      assert us[..|us| - 1] == vs + ws[..n] && us[|us| - 1] == ws[n];
    }
  }

  lemma {:induction false} WithKeyMultiset(vs: seq<Word>, h: nat, p: nat, x: Word)
    requires p <= 64
    ensures multiset(WithKey(vs, h, p))[x] == if Key(x, p) == h then multiset(vs)[x] else 0
  {
    if vs != [] {
      var n := |vs| - 1;
      WithKeyMultiset(vs[..n], h, p, x);
      assert vs == vs[..n] + [vs[n]];
    }
  }

  /** Where the bucket of thread t for key h starts: psize * h + tsize * t. */
  function Base(h: nat, t: nat, T: nat, tsize: nat): (b: nat) {
    (tsize * T) * h + tsize * t
  }

  lemma ProductStep(a: nat, x: nat, y: nat)
    requires x < y
    ensures a * x + a <= a * y
  {
    assert a * (x + 1) <= a * y;
  }

  lemma BucketFits(h: nat, t: nat, T: nat, tsize: nat, fanOut: nat)
    requires t < T && h < fanOut
    ensures Base(h, t, T, tsize) + tsize <= (tsize * T) * fanOut
  {
    ProductStep(tsize, t, T);
    ProductStep(tsize * T, h, fanOut);
  }

  /** Different buckets do not overlap. */
  lemma BucketsDisjoint(h: nat, t: nat, h': nat, t': nat, T: nat, tsize: nat)
    requires t < T && t' < T && (h != h' || t != t')
    ensures Base(h, t, T, tsize) + tsize <= Base(h', t', T, tsize)
      || Base(h', t', T, tsize) + tsize <= Base(h, t, T, tsize)
  {
    if h < h' {
      BucketFits(h, t, T, tsize, h');
    } else if h' < h {
      BucketFits(h', t', T, tsize, h);
    } else if t < t' {
      ProductStep(tsize, t, t');
    } else {
      ProductStep(tsize, t', t);
    }
  }

  /** The items that thread t handles, the shares being windows of the list. */
  ghost function Share(vs: seq<Word>, shares: seq<Window>, t: nat): (r: seq<Word>)
    requires InBounds(vs, shares) && t < |shares|
    ensures |r| == shares[t].n && forall i | 0 <= i < |r| :: r[i] == vs[shares[t].lo + i]
  {
    vs[shares[t].lo..shares[t].lo + shares[t].n]
  }

  /** No thread-private bucket overflows. */
  ghost predicate CapacityOk(vs: seq<Word>, shares: seq<Window>, p: nat, tsize: nat)
    requires p <= 64 && InBounds(vs, shares)
  {
    forall t, h | 0 <= t < |shares| && 0 <= h < Pow2(p) :: |WithKey(Share(vs, shares, t), h, p)| <= tsize
  }

  /** The bucket that starts at b holds the items vs, and its counter c points past them. */
  ghost predicate BucketHolds(scratch: seq<Word>, c: nat, b: nat, vs: seq<Word>) {
    c == b + |vs| <= |scratch| && scratch[b..c] == vs
  }

  lemma BucketKept(scratch: seq<Word>, idx: nat, x: Word, c: nat, b: nat, vs: seq<Word>)
    requires BucketHolds(scratch, c, b, vs) && idx < |scratch| && (idx < b || idx >= c)
    ensures BucketHolds(scratch[idx := x], c, b, vs)
  {}

  lemma BucketGrows(scratch: seq<Word>, c: nat, x: Word, b: nat, vs: seq<Word>)
    requires BucketHolds(scratch, c, b, vs) && c < |scratch|
    ensures BucketHolds(scratch[c := x], c + 1, b, vs + [x])
  {
    assert scratch[c := x][b..c + 1] == scratch[b..c] + [x];
  }

  /** The bucket of the next item of thread t has room for it. */
  lemma RoomInBucket(vs: seq<Word>, shares: seq<Window>, t: nat, d: nat, x: Word, p: nat, tsize: nat, fanOut: nat,
                     S: seq<Word>, c: nat, T: nat)
    requires p <= 64 && InBounds(vs, shares) && t < |shares| == T && d < shares[t].n && x == vs[shares[t].lo + d]
      && fanOut == Pow2(p)
    requires CapacityOk(vs, shares, p, tsize) && |S| == (tsize * T) * fanOut
    requires BucketHolds(S, c, Base(Key(x, p), t, T, tsize), WithKey(Share(vs, shares, t)[..d], Key(x, p), p))
    ensures c < |S| && Base(Key(x, p), t, T, tsize) <= c < Base(Key(x, p), t, T, tsize) + tsize
    ensures WithKey(Share(vs, shares, t)[..d + 1], Key(x, p), p) == WithKey(Share(vs, shares, t)[..d], Key(x, p), p)
      + [x]
  {
    NextInBucket(Share(vs, shares, t), d, Key(x, p), p);
    BucketFits(Key(x, p), t, T, tsize, fanOut);
  }

  /** What a bucket holds after thread t has moved its next item x, which went to position c. */
  lemma OtherBucket(share: seq<Word>, d: nat, t: nat, u: nat, g: nat, x: Word, p: nat, tsize: nat, T: nat, S: seq<Word>,
                    c: nat, k: nat)
    requires p <= 64 && t < T && u < T && g < Pow2(p) && d <= |share| && (u != t || g != Key(x, p))
    requires |WithKey(share, g, p)| <= tsize && BucketHolds(S, k, Base(g, u, T, tsize), WithKey(share[..d], g, p))
    requires c < |S| && Base(Key(x, p), t, T, tsize) <= c < Base(Key(x, p), t, T, tsize) + tsize
    ensures BucketHolds(S[c := x], k, Base(g, u, T, tsize), WithKey(share[..d], g, p))
  {
    WithKeyOfPrefix(share, d, g, p);
    BucketsDisjoint(Key(x, p), t, g, u, T, tsize);
    BucketKept(S, c, x, k, Base(g, u, T, tsize), WithKey(share[..d], g, p));
  }

  lemma BucketAfter(vs: seq<Word>, shares: seq<Window>, done: seq<nat>, t: nat, u: nat, g: nat, x: Word, p: nat,
                    tsize: nat, T: nat, S: seq<Word>, c: nat, k: nat)
    requires p <= 64 && InBounds(vs, shares) && |shares| == |done| == T && t < T && u < T && g < Pow2(p)
    requires done[u] <= shares[u].n && done[t] < shares[t].n && x == vs[shares[t].lo + done[t]]
      && CapacityOk(vs, shares, p, tsize)
    requires BucketHolds(S, k, Base(g, u, T, tsize), WithKey(Share(vs, shares, u)[..done[u]], g, p))
    requires c < |S| && Base(Key(x, p), t, T, tsize) <= c < Base(Key(x, p), t, T, tsize) + tsize
    requires u == t && g == Key(x, p) ==> k == c
    ensures done[t := done[t] + 1][u] <= shares[u].n
    ensures BucketHolds(S[c := x], if u == t && g == Key(x, p) then k + 1 else k, Base(g, u, T, tsize),
                        WithKey(Share(vs, shares, u)[..done[t := done[t] + 1][u]], g, p))
  {
    var share, d := Share(vs, shares, u), done[u];
    assert done[t := done[t] + 1][u] == if u == t then d + 1 else d;
    if u == t {
      assert x == share[d];
      NextInBucket(share, d, Key(x, p), p);
    }
    if u == t && g == Key(x, p) {
      BucketGrows(S, c, x, Base(g, u, T, tsize), WithKey(share[..d], g, p));
    } else {
      OtherBucket(share, d, t, u, g, x, p, tsize, T, S, c, k);
    }
  }

  /** struct side_t, with its scratch space: one bucket of tsize words for each thread and each key. */
  class Side {
    const n: nat
    const p: nat
    const T: nat
    const tsize: nat
    const LM: array<Word>
    const scratch: array<Word>
    const count: array2<nat>

    ghost predicate Valid()
      reads this
    {
      && p <= 64 && T > 0 && LM.Length == n && LM != scratch
      && scratch.Length == (tsize * T) * Pow2(p)
      && count.Length0 == T && count.Length1 == Pow2(p)
    }

    constructor (n: nat, p: nat, T: nat, tsize: nat)
      requires p <= 64 && T > 0
      ensures Valid() && this.n == n && this.p == p && this.T == T && this.tsize == tsize
      ensures fresh(LM) && fresh(scratch) && fresh(count)
    {
      this.n, this.p, this.T, this.tsize := n, p, T, tsize;
      LM := new Word[n](_ => {});
      scratch := new Word[(tsize * T) * Pow2(p)](_ => {});
      count := new nat[T, Pow2(p)]((_, _) => 0);
    }

    /** The buckets reflect that thread t has handled the first done[t] items of its share. */
    ghost predicate Scattered(vs: seq<Word>, shares: seq<Window>, done: seq<nat>)
      requires Valid() && InBounds(vs, shares) && |shares| == |done| == T
      requires forall t | 0 <= t < T :: done[t] <= shares[t].n
      reads this, scratch, count
    {
      forall t, h | 0 <= t < T && 0 <= h < Pow2(p) ::
        BucketHolds(scratch[..], count[t, h], Base(h, t, T, tsize), WithKey(Share(vs, shares, t)[..done[t]], h, p))
    }

    /** partition, at the start: every counter points to the beginning of its bucket. */
    method ResetCounters(t: nat)
      requires Valid() && t < T
      modifies count
      ensures forall h | 0 <= h < Pow2(p) :: count[t, h] == Base(h, t, T, tsize)
      ensures forall u, h | 0 <= u < T && 0 <= h < Pow2(p) && u != t :: count[u, h] == old(count[u, h])
    {
      var fanOut := Pow2(p);
      for i := 0 to fanOut
        invariant forall h | 0 <= h < i :: count[t, h] == Base(h, t, T, tsize)
        invariant forall u, h | 0 <= u < T && 0 <= h < Pow2(p) && u != t :: count[u, h] == old(count[u, h])
      {
        count[t, i] := Base(i, t, T, tsize);
      }
    }

    /** One iteration of the loop of partition: thread t moves its next item x. */
    method Move(t: nat, x: Word)
      requires Valid() && t < T && count[t, Key(x, p)] < scratch.Length
      modifies scratch, count
      ensures scratch[..] == old(scratch[..])[old(count[t, Key(x, p)]) := x]
      ensures count[t, Key(x, p)] == old(count[t, Key(x, p)]) + 1
      ensures forall u, h | 0 <= u < T && 0 <= h < Pow2(p) && (u != t || h != Key(x, p)) ::
        count[u, h] == old(count[u, h])
    {
      var h := Key(x, p);
      var idx := count[t, h];
      count[t, h] := count[t, h] + 1;
      scratch[idx] := x;
    }

    /** The move of one item by one thread leaves all the other buckets alone. */
    method MoveNext(t: nat, i: nat, ghost vs: seq<Word>, ghost shares: seq<Window>, ghost done: seq<nat>)
      requires Valid() && t < T && InBounds(vs, shares) && |shares| == |done| == T && vs == LM[..]
      requires forall u | 0 <= u < T :: done[u] <= shares[u].n
      requires i == shares[t].lo + done[t] && done[t] < shares[t].n
      requires CapacityOk(vs, shares, p, tsize) && Scattered(vs, shares, done)
      modifies scratch, count
      ensures Scattered(vs, shares, done[t := done[t] + 1])
    {
      var x := LM[i];
      ghost var h, S := Key(x, p), scratch[..];
      ghost var c := count[t, h];
      assert BucketHolds(S, c, Base(h, t, T, tsize), WithKey(Share(vs, shares, t)[..done[t]], h, p));
      RoomInBucket(vs, shares, t, done[t], x, p, tsize, Pow2(p), S, c, T);
      Move(t, x);
      forall u, g | 0 <= u < T && 0 <= g < Pow2(p)
        ensures BucketHolds(scratch[..], count[u, g], Base(g, u, T, tsize),
          WithKey(Share(vs, shares, u)[..done[t := done[t] + 1][u]], g, p))
      {
        assert old(BucketHolds(S, count[u, g], Base(g, u, T, tsize), WithKey(Share(vs, shares, u)[..done[u]], g, p)));
        BucketAfter(vs, shares, done, t, u, g, x, p, tsize, T, S, c, old(count[u, g]));
      }
    }

    /** partition, by all the threads: the schedule tells which thread moves an item next. */
    method PartitionAll(shares: seq<Window>, schedule: seq<nat>, ghost vs: seq<Word>)
      requires Valid() && vs == LM[..] && InBounds(vs, shares) && |shares| == T && CapacityOk(vs, shares, p, tsize)
      requires IsSchedule(schedule, shares)
      modifies scratch, count
      ensures Scattered(vs, shares, Totals(shares))
    {
      for t := 0 to T
        invariant forall u, h | 0 <= u < t && 0 <= h < Pow2(p) :: count[u, h] == Base(h, u, T, tsize)
      {
        ResetCounters(t);
      }
      var done := seq(T, _ => 0);
      NothingScattered(vs, shares, done);
      for k := 0 to |schedule|
        invariant |done| == T && forall t | 0 <= t < T :: done[t] == multiset(schedule[..k])[t]
        invariant forall t | 0 <= t < T :: done[t] <= shares[t].n
        invariant vs == LM[..] && Scattered(vs, shares, done)
      {
        var t := schedule[k];
        ScheduleNext(schedule, k, shares);
        MoveNext(t, shares[t].lo + done[t], vs, shares, done);
        done := done[t := done[t] + 1];
      }
      assert schedule[..|schedule|] == schedule;
      assert done == Totals(shares);
    }

    lemma NothingScattered(vs: seq<Word>, shares: seq<Window>, done: seq<nat>)
      requires Valid() && InBounds(vs, shares) && |shares| == |done| == T && forall t | 0 <= t < T :: done[t] == 0
      requires forall t, h | 0 <= t < T && 0 <= h < Pow2(p) :: count[t, h] == Base(h, t, T, tsize)
      ensures Scattered(vs, shares, done)
    {
      forall t, h | 0 <= t < T && 0 <= h < Pow2(p)
        ensures BucketHolds(scratch[..], count[t, h], Base(h, t, T, tsize), WithKey(Share(vs, shares, t)[..0], h, p))
      {
        BucketFits(h, t, T, tsize, Pow2(p));
      }
    }

    /** All the items of the list vs are in their buckets. */
    ghost predicate Partitioned(vs: seq<Word>, shares: seq<Window>)
      reads this, scratch, count
    {
      && Valid() && InBounds(vs, shares) && |shares| == T && Gathered(vs, shares, T) == vs
      && Scattered(vs, shares, Totals(shares))
    }

    lemma BucketOf(vs: seq<Word>, shares: seq<Window>, t: nat, h: nat)
      requires Partitioned(vs, shares) && t < T && h < Pow2(p)
      ensures BucketHolds(scratch[..], count[t, h], Base(h, t, T, tsize), WithKey(Share(vs, shares, t), h, p))
    {
      var done := Totals(shares);
      assert BucketHolds(scratch[..], count[t, h], Base(h, t, T, tsize),
        WithKey(Share(vs, shares, t)[..done[t]], h, p));
      assert Share(vs, shares, t)[..done[t]] == Share(vs, shares, t);
    }

    /** The windows of key h in the scratch space, one for each thread, hold the items with key h. */
    method Windows(h: nat, ghost vs: seq<Word>, ghost shares: seq<Window>) returns (ws: seq<Window>)
      requires h < Pow2(p) && Partitioned(vs, shares)
      ensures |ws| == T && InBounds(scratch[..], ws)
      ensures Gathered(scratch[..], ws, T) == WithKey(vs, h, p)
    {
      ghost var S := scratch[..];
      ws := [];
      for t := 0 to T
        invariant S == scratch[..] && |ws| == t && InBounds(S, ws)
        invariant forall u | 0 <= u < t :: Share(S, ws, u) == WithKey(Share(vs, shares, u), h, p)
      {
        BucketOf(vs, shares, t, h);
        var lo := Base(h, t, T, tsize);
        var hi := count[t, h];
        ghost var before := ws;
        ws := ws + [Window(lo, hi - lo)];
        forall u | 0 <= u < t + 1
          ensures Share(S, ws, u) == WithKey(Share(vs, shares, u), h, p)
        {
          if u < t {
            assert Share(S, before, u) == Share(S, ws, u);
          }
        }
      }
      GatheredBuckets(S, ws, vs, shares, h, p, T);
    }
  }

  /** The schedule lets every thread handle its whole share. */
  ghost predicate IsSchedule(schedule: seq<nat>, shares: seq<Window>) {
    (forall k | 0 <= k < |schedule| :: schedule[k] < |shares|)
    && forall t | 0 <= t < |shares| :: multiset(schedule)[t] == shares[t].n
  }

  lemma ScheduleNext(schedule: seq<nat>, k: nat, shares: seq<Window>)
    requires IsSchedule(schedule, shares) && k < |schedule|
    ensures multiset(schedule[..k + 1]) == multiset(schedule[..k]) + multiset{schedule[k]}
    ensures multiset(schedule[..k])[schedule[k]] < shares[schedule[k]].n
  {
    assert schedule[..k + 1] == schedule[..k] + [schedule[k]];
    assert schedule == schedule[..k + 1] + schedule[k + 1..];
    assert multiset(schedule)[schedule[k]] >= multiset(schedule[..k + 1])[schedule[k]];
  }

  /** The shares are consecutive and cover a list of n items. */
  ghost predicate Tiles(shares: seq<Window>, n: nat) {
    |shares| > 0 && shares[0].lo == 0 && EndOf(shares, |shares| - 1) == n
    && forall t | 0 < t < |shares| :: shares[t].lo == EndOf(shares, t - 1)
  }

  ghost function EndOf(shares: seq<Window>, t: nat): (e: nat)
    requires t < |shares|
  {
    shares[t].lo + shares[t].n
  }

  lemma {:induction false} TilesEnd(shares: seq<Window>, n: nat, t: nat)
    requires Tiles(shares, n) && t < |shares|
    ensures EndOf(shares, t) <= n
    decreases |shares| - t
  {
    if t < |shares| - 1 {
      TilesEnd(shares, n, t + 1);
      assert shares[t + 1].lo == EndOf(shares, t);
    }
  }

  lemma TilesInBounds(vs: seq<Word>, shares: seq<Window>)
    requires Tiles(shares, |vs|)
    ensures InBounds(vs, shares)
  {
    forall t | 0 <= t < |shares|
      ensures shares[t].lo + shares[t].n <= |vs|
    {
      TilesEnd(shares, |vs|, t);
    }
  }

  lemma JoinPrefix(vs: seq<Word>, a: nat, b: nat)
    requires a <= b <= |vs|
    ensures vs[..a] + vs[a..b] == vs[..b]
  {
  }

  lemma {:induction false} GatheredTiles(vs: seq<Word>, shares: seq<Window>, t: nat)
    requires Tiles(shares, |vs|) && InBounds(vs, shares) && 0 < t <= |shares|
    ensures Gathered(vs, shares, t) == vs[..EndOf(shares, t - 1)]
  {
    if t > 1 {
      GatheredTiles(vs, shares, t - 1);
      JoinPrefix(vs, EndOf(shares, t - 2), EndOf(shares, t - 1));
    } else {
      assert Gathered(vs, shares, 0) == [];
    }
  }

  ghost function Totals(shares: seq<Window>): (done: seq<nat>)
    ensures |done| == |shares| && forall t | 0 <= t < |done| :: done[t] == shares[t].n
  {
    seq(|shares|, t requires 0 <= t < |shares| => shares[t].n)
  }

  /** The buckets of key h, over all the threads, hold exactly the items with key h. */
  lemma {:induction false} GatheredBuckets(scratch: seq<Word>, ws: seq<Window>, vs: seq<Word>, shares: seq<Window>,
                                           h: nat, p: nat, t: nat)
    requires p <= 64 && InBounds(scratch, ws) && InBounds(vs, shares) && t <= |ws| == |shares|
    requires forall u | 0 <= u < |ws| :: Share(scratch, ws, u) == WithKey(Share(vs, shares, u), h, p)
    ensures Gathered(scratch, ws, t) == WithKey(Gathered(vs, shares, t), h, p)
  {
    if t > 0 {
      GatheredBuckets(scratch, ws, vs, shares, h, p, t - 1);
      WithKeyConcat(Gathered(vs, shares, t - 1), Share(vs, shares, t - 1), h, p);
      assert Share(scratch, ws, t - 1) == WithKey(Share(vs, shares, t - 1), h, p);
    }
  }

  lemma WithKeyOfPrefix(vs: seq<Word>, d: nat, h: nat, p: nat)
    requires p <= 64 && d <= |vs|
    ensures |WithKey(vs[..d], h, p)| <= |WithKey(vs, h, p)|
  {
    WithKeyConcat(vs[..d], vs[d..], h, p);
    assert vs == vs[..d] + vs[d..];
  }

  lemma NextInBucket(share: seq<Word>, d: nat, h: nat, p: nat)
    requires p <= 64 && d < |share| && h == Key(share[d], p)
    ensures |WithKey(share[..d], h, p)| < |WithKey(share, h, p)|
    ensures WithKey(share[..d + 1], h, p) == WithKey(share[..d], h, p) + [share[d]]
    ensures forall g | g != h :: WithKey(share[..d + 1], g, p) == WithKey(share[..d], g, p)
  {
    assert share[..d + 1][..d] == share[..d];
    WithKeyConcat(share[..d + 1], share[d + 1..], h, p);
    assert share == share[..d + 1] + share[d + 1..];
  }
}
