/** The join of two lists of vectors on their l top bits, through a small hash table. */
module Subjoin {
  import opened Words
  import opened Numbers
  import opened Probing
  import opened HashTables

  datatype Triple = Triple(x: Word, y: Word, z: Word)

  /** (x ^ y) >> (64 - l) == 0 */
  predicate Matches(x: Word, y: Word, l: nat)
    requires l <= 64
  {
    Shr(Xor(x, y), 64 - l) == {}
  }

  /** (x >> shift) & 511 */
  function Home(x: Word, shift: nat): (h: Slot) {
    assert Pow2(9) == 512;
    NumberOf(Shr(x, shift), 9)
  }

  /** The home of a word, in terms of its number. */
  lemma HomeOfNumber(x: Word, shift: nat)
    requires shift <= 64
    ensures Home(x, shift) == NumberOf(x, 64) / Pow2(shift) % 512
  {
    assert Pow2(9) == 512;
    WiderNumber(x, 64, 64 + shift);
    ShiftDivides(x, shift, 64 + shift);
    ShiftDivides(Shr(x, shift), 9, 64);
  }

  /** The home slots, as a function. */
  function Homes(shift: nat): (home: Word -> Slot)
    ensures forall x :: home(x) == Home(x, shift)
  {
    x => Home(x, shift)
  }

  lemma MatchesIsSharedTop(x: Word, y: Word, l: nat)
    requires l <= 64
    ensures Matches(x, y, l) <==> Shr(x, 64 - l) == Shr(y, 64 - l)
  {
    var k := 64 - l;
    forall i: nat
      ensures i in Shr(Xor(x, y), k) <==> (i in Shr(x, k)) != (i in Shr(y, k))
    {
      ShrBit(Xor(x, y), k, i);
      ShrBit(x, k, i);
      ShrBit(y, k, i);
    }
  }

  /** The triples emitted for y among the words seen, in order. */
  ghost function Emitted(seen: seq<Word>, y: Word, l: nat): (out: seq<Triple>)
    requires l <= 64
  {
    if seen == [] then [] else
    var n := |seen| - 1;
    var x := seen[n];
    Emitted(seen[..n], y, l) + if Matches(x, y, l) then [Triple(x, y, Xor(x, y))] else []
  }

  lemma OneMoreTriple(ts: seq<Triple>, u: Triple, t: Triple)
    ensures multiset(ts + [u])[t] == multiset(ts)[t] + if u == t then 1 else 0
    ensures ts + [] == ts
  {
  }

  lemma {:induction false} EmittedCount(seen: seq<Word>, y: Word, l: nat, t: Triple)
    requires l <= 64
    ensures multiset(Emitted(seen, y, l))[t]
         == if t.y == y && t.z == Xor(t.x, y) && Matches(t.x, y, l) then multiset(seen)[t.x] else 0
  {
    if seen != [] {
      var n := |seen| - 1;
      EmittedCount(seen[..n], y, l, t);
      LastSplit(seen, t.x);
      OneMoreTriple(Emitted(seen[..n], y, l), Triple(seen[n], y, Xor(seen[n], y)), t);
    }
  }

  /** How often the triple t occurs in the join of A and B on the l top bits. The zero word of A is left
      out, as it cannot be stored in the table. */
  ghost function Pairs(t: Triple, A: seq<Word>, B: seq<Word>, l: nat): (n: nat)
    requires l <= 64
  {
    if t.x != {} && t.z == Xor(t.x, t.y) && Matches(t.x, t.y, l) then multiset(A)[t.x] * multiset(B)[t.y] else 0
  }

  /** out lists, with their multiplicities, the pairs of A and B that agree on their l top bits. */
  ghost predicate IsJoin(out: seq<Triple>, A: seq<Word>, B: seq<Word>, l: nat)
    requires l <= 64
  {
    forall t: Triple :: multiset(out)[t] == Pairs(t, A, B, l)
  }

  /** Probing the table of A with y from its home until an empty slot sees every match of y. */
  lemma ProbeFindsMatches(T: Table, A: seq<Word>, y: Word, l: nat, e: nat, t: Triple)
    requires l <= 64 && Holds(T, A) && e < 512
    requires Probed(T, Homes(64 - l)) && Occupied(T, Home(y, 64 - l), e) && T[Ahead(Home(y, 64 - l), e)] == {}
    ensures multiset(Emitted(Rotated(T, Home(y, 64 - l))[..e], y, l))[t]
         == if t.x != {} && t.y == y && t.z == Xor(t.x, y) && Matches(t.x, y, l) then multiset(A)[t.x] else 0
  {
    var h := Home(y, 64 - l);
    var seen := Rotated(T, h)[..e];
    EmittedCount(seen, y, l, t);
    if t.x == {} {
      assert t.x !in seen;
    } else if Matches(t.x, y, l) {
      MatchesIsSharedTop(t.x, y, l);
      SeenCompletely(T, Homes(64 - l), h, e, t.x);
    }
  }

  lemma PairsStep(t: Triple, A: seq<Word>, B: seq<Word>, y: Word, l: nat)
    requires l <= 64
    ensures Pairs(t, A, B + [y], l) == Pairs(t, A, B, l) + if t.y == y then Pairs(t, A, [y], l) else 0
  {
    var a, b := multiset(A)[t.x], multiset(B)[t.y];
    assert multiset(B + [y]) == multiset(B) + multiset{y};
    assert multiset([y]) == multiset{y};
    assert a * (b + 1) == a * b + a;
  }

  lemma JoinStep(out: seq<Triple>, T: Table, A: seq<Word>, B: seq<Word>, y: Word, l: nat, e: nat)
    requires l <= 64 && IsJoin(out, A, B, l) && Holds(T, A) && e < 512
    requires Probed(T, Homes(64 - l)) && Occupied(T, Home(y, 64 - l), e) && T[Ahead(Home(y, 64 - l), e)] == {}
    ensures IsJoin(out + Emitted(Rotated(T, Home(y, 64 - l))[..e], y, l), A, B + [y], l)
  {
    var more := Emitted(Rotated(T, Home(y, 64 - l))[..e], y, l);
    forall t: Triple
      ensures multiset(out + more)[t] == Pairs(t, A, B + [y], l)
    {
      ProbeFindsMatches(T, A, y, l, e, t);
      PairsStep(t, A, B, y, l);
      assert multiset(out + more)[t] == multiset(out)[t] + multiset(more)[t];
      assert multiset([y])[y] == 1;
    }
  }

  /** A run of words in a scratch array: a pointer and a length. */
  datatype Window = Window(lo: nat, n: nat)

  ghost predicate InBounds(a: seq<Word>, ws: seq<Window>) {
    forall i | 0 <= i < |ws| :: ws[i].lo + ws[i].n <= |a|
  }

  /** The words of the first t windows. */
  ghost function Gathered(a: seq<Word>, ws: seq<Window>, t: nat): (vs: seq<Word>)
    requires InBounds(a, ws) && t <= |ws|
  {
    if t == 0 then [] else Gathered(a, ws, t - 1) + a[ws[t - 1].lo..ws[t - 1].lo + ws[t - 1].n]
  }

  lemma {:induction false} GatheredPrefix(a: seq<Word>, ws: seq<Window>, t: nat, u: nat) returns (rest: seq<Word>)
    requires InBounds(a, ws) && t <= u <= |ws|
    ensures Gathered(a, ws, u) == Gathered(a, ws, t) + rest
  {
    if t == u {
      rest := [];
    } else {
      rest := GatheredPrefix(a, ws, t, u - 1);
      rest := rest + a[ws[u - 1].lo..ws[u - 1].lo + ws[u - 1].n];
    }
  }

  /** The number of non-zero words. */
  ghost function NonZero(vs: seq<Word>): (n: int) {
    |vs| - multiset(vs)[{}]
  }

  lemma {:induction false} NonZeroConcat(vs: seq<Word>, ws: seq<Word>)
    ensures NonZero(vs + ws) == NonZero(vs) + NonZero(ws) && NonZero(ws) >= 0
  {
    assert |multiset(ws)| == |ws|;
    assert multiset(ws)[{}] <= |multiset(ws)|;
  }

  /** A table for these words keeps an empty slot. */
  ghost predicate HasRoom(vs: seq<Word>) {
    // The condition is named so that the verifier does not split it.
    var room := NonZero(vs) < 512; room
  }

  lemma RoomInPrefix(vs: seq<Word>, k: nat)
    requires k <= |vs| && HasRoom(vs)
    ensures HasRoom(vs[..k])
  {
    NonZeroConcat(vs[..k], vs[k..]);
    assert vs == vs[..k] + vs[k..];
  }

  /** A table for the words of all the windows keeps an empty slot. */
  ghost predicate RoomForAll(a: seq<Word>, ws: seq<Window>)
    requires InBounds(a, ws)
  {
    HasRoom(Gathered(a, ws, |ws|))
  }

  lemma RoomInGathered(a: seq<Word>, ws: seq<Window>, t: nat, vs: seq<Word>)
    requires InBounds(a, ws) && t <= |ws| && vs == Gathered(a, ws, t) && RoomForAll(a, ws)
    ensures HasRoom(vs)
  {
    var rest := GatheredPrefix(a, ws, t, |ws|);
    NonZeroConcat(vs, rest);
  }

  /** A table built for the words vs, with room left. */
  ghost predicate Built(T: seq<Word>, vs: seq<Word>, shift: nat) {
    // The condition is named so that the verifier does not split it.
    |T| == 512
    && var built := Probed(T, Homes(shift)) && Holds(T, vs) && multiset(T)[{}] == 512 - NonZero(vs); built
  }

  lemma BuiltEmpty(shift: nat)
    ensures Built(EmptyTable(), [], shift)
  {
    EmptyTableHoldsNothing();
  }

  method BuildStep(H: array<Word>, x: Word, shift: nat, ghost vs: seq<Word>, ghost all: seq<Word>)
    requires H.Length == 512 && Built(H[..], vs, shift) && HasRoom(vs) && all == vs + [x]
    modifies H
    ensures Built(H[..], all, shift)
  {
    ghost var T := H[..];
    assert {} in multiset(T);
    ProbeInsert(H, x, Home(x, shift), Homes(shift));
    HoldsStore(T, H[..], vs, x);
    assert multiset(all) == multiset(vs) + multiset{x};
  }

  /** The table holds the first k words of a list. */
  ghost predicate BuiltTo(T: seq<Word>, all: seq<Word>, k: nat, shift: nat) {
    // The condition is named so that the verifier does not split it.
    k <= |all| && var built := Built(T, all[..k], shift); built
  }

  /** The list ends, from word k on, with the words of a window of a. */
  ghost predicate EndsWith(all: seq<Word>, k: nat, a: seq<Word>, w: Window) {
    // The condition is named so that the verifier does not split it.
    var ends := w.lo + w.n <= |a| && k + w.n == |all| && forall i | k <= i < |all| :: all[i] == a[w.lo + i - k];
    ends
  }

  lemma NextPrefix(all: seq<Word>, k: nat)
    requires k < |all|
    ensures all[..k + 1] == all[..k] + [all[k]]
  {
  }

  lemma NextWindow(a: seq<Word>, ws: seq<Window>, t: nat) returns (vs: seq<Word>, all: seq<Word>)
    requires InBounds(a, ws) && t < |ws|
    ensures vs == Gathered(a, ws, t) && all == Gathered(a, ws, t + 1)
    ensures EndsWith(all, |vs|, a, ws[t]) && |vs| <= |all| && all[..|vs|] == vs
  {
    vs, all := Gathered(a, ws, t), Gathered(a, ws, t + 1);
  }

  lemma BuiltPrefix(T: seq<Word>, vs: seq<Word>, all: seq<Word>, shift: nat)
    requires Built(T, vs, shift) && |vs| <= |all| && all[..|vs|] == vs
    ensures BuiltTo(T, all, |vs|, shift)
  {
  }

  lemma BuiltWhole(T: seq<Word>, all: seq<Word>, shift: nat)
    requires BuiltTo(T, all, |all|, shift)
    ensures Built(T, all, shift)
  {
    assert all[..|all|] == all;
  }

  lemma BuiltAll(T: seq<Word>, all: seq<Word>, k: nat, n: nat, shift: nat)
    requires k == n && BuiltTo(T, all, k, shift)
    ensures BuiltTo(T, all, n, shift)
  {}

  /** Insertion of word k of a list, when the ones before it are in the table. */
  method BuildAt(H: array<Word>, x: Word, shift: nat, ghost all: seq<Word>, ghost k: nat)
    requires H.Length == 512 && k < |all| && BuiltTo(H[..], all, k, shift) && HasRoom(all) && all[k] == x
    modifies H
    ensures BuiltTo(H[..], all, k + 1, shift)
  {
    RoomInPrefix(all, k);
    NextPrefix(all, k);
    BuildStep(H, x, shift, all[..k], all[..k + 1]);
  }

  /** The build phase for one window. */
  method BuildWindow(H: array<Word>, A: array<Word>, w: Window, shift: nat, ghost all: seq<Word>, ghost k: nat,
                     ghost a: seq<Word>)
    requires H.Length == 512 && H != A && a == A[..] && BuiltTo(H[..], all, k, shift) && EndsWith(all, k, a, w)
      && HasRoom(all)
    modifies H
    ensures BuiltTo(H[..], all, |all|, shift)
  {
    ghost var j := k;
    for i := 0 to w.n
      invariant a == A[..] && j == k + i && BuiltTo(H[..], all, j, shift)
    {
      BuildAt(H, A[w.lo + i], shift, all, j);
      j := j + 1;
    }
    BuiltAll(H[..], all, j, |all|, shift);
  }

  method BuildNext(H: array<Word>, A: array<Word>, wa: seq<Window>, t: nat, shift: nat, ghost a: seq<Word>)
    requires H.Length == 512 && H != A && a == A[..] && InBounds(a, wa) && t < |wa|
    requires Built(H[..], Gathered(a, wa, t), shift) && RoomForAll(a, wa)
    modifies H
    ensures Built(H[..], Gathered(a, wa, t + 1), shift)
  {
    ghost var vs, all := NextWindow(a, wa, t);
    RoomInGathered(a, wa, t + 1, all);
    BuiltPrefix(H[..], vs, all, shift);
    BuildWindow(H, A, wa[t], shift, all, |vs|, a);
    BuiltWhole(H[..], all, shift);
  }

  /** The build phase. The table is empty at first. */
  method Build(H: array<Word>, A: array<Word>, wa: seq<Window>, shift: nat, ghost a: seq<Word>)
    requires H.Length == 512 && H != A && a == A[..] && InBounds(a, wa) && RoomForAll(a, wa)
    requires Built(H[..], [], shift)
    modifies H
    ensures Built(H[..], Gathered(a, wa, |wa|), shift)
  {
    for t := 0 to |wa|
      invariant Built(H[..], Gathered(a, wa, t), shift)
    {
      BuildNext(H, A, wa, t, shift, a);
    }
  }

  /** Probes the table with y. The matches are reported from its home on, up to an empty slot. */
  method Probe(H: array<Word>, y: Word, l: nat, ghost A: seq<Word>, ghost B: seq<Word>, out: seq<Triple>,
               ghost all: seq<Word>) returns (out': seq<Triple>)
    requires l <= 64 && H.Length == 512 && Built(H[..], A, 64 - l) && HasRoom(A)
    requires IsJoin(out, A, B, l) && all == B + [y]
    ensures IsJoin(out', A, all, l)
  {
    ghost var T := H[..];
    assert {} in multiset(T);
    ghost var e;
    out', e := ProbeLoop(H, y, l, out, T);
    JoinStep(out, T, A, B, y, l, e);
  }

  method ProbeLoop(H: array<Word>, y: Word, l: nat, out: seq<Triple>, ghost T: Table)
    returns (out': seq<Triple>, ghost e: nat)
    requires l <= 64 && H.Length == 512 && T == H[..] && {} in T
    ensures e < 512 && Occupied(T, Home(y, 64 - l), e) && T[Ahead(Home(y, 64 - l), e)] == {}
    ensures out' == out + Emitted(Rotated(T, Home(y, 64 - l))[..e], y, l)
  {
    ghost var home := Home(y, 64 - l);
    ghost var bound := FirstEmpty(T, home);
    ghost var R := Rotated(T, home);
    out', e := out, 0;
    assert out + Emitted(R[..0], y, l) == out;
    var h := Home(y, 64 - l);
    var x := H[h];
    while x != {}
      invariant e <= bound && h == Ahead(home, e) && x == T[h] && Occupied(T, home, e)
      invariant out' == out + Emitted(R[..e], y, l)
      decreases bound - e
    {
      var z := Xor(x, y);
      AheadNext(home, e);
      OccupiedNext(T, home, e);
      EmittedNext(R, e, y, l, out);
      if Shr(z, 64 - l) == {} {
        out' := out' + [Triple(x, y, z)];
      }
      h := Next(h);
      x := H[h];
      e := e + 1;
    }
  }

  lemma EmittedNext(R: seq<Word>, e: nat, y: Word, l: nat, out: seq<Triple>)
    requires l <= 64 && e < |R|
    ensures Matches(R[e], y, l) ==>
            out + Emitted(R[..e + 1], y, l) == (out + Emitted(R[..e], y, l)) + [Triple(R[e], y, Xor(R[e], y))]
    ensures !Matches(R[e], y, l) ==> out + Emitted(R[..e + 1], y, l) == out + Emitted(R[..e], y, l)
  {
    assert R[..e + 1][..e] == R[..e];
  }

  /** The triples reported are those of the first k words of a list. */
  ghost predicate JoinedTo(out: seq<Triple>, A: seq<Word>, all: seq<Word>, k: nat, l: nat)
    requires l <= 64
  {
    // The condition is named so that the verifier does not split it.
    k <= |all| && var joined := IsJoin(out, A, all[..k], l); joined
  }

  lemma JoinedPrefix(out: seq<Triple>, A: seq<Word>, vs: seq<Word>, all: seq<Word>, l: nat)
    requires l <= 64 && IsJoin(out, A, vs, l) && |vs| <= |all| && all[..|vs|] == vs
    ensures JoinedTo(out, A, all, |vs|, l)
  {
  }

  lemma JoinedWhole(out: seq<Triple>, A: seq<Word>, all: seq<Word>, l: nat)
    requires l <= 64 && JoinedTo(out, A, all, |all|, l)
    ensures IsJoin(out, A, all, l)
  {
    assert all[..|all|] == all;
  }

  lemma JoinedAll(out: seq<Triple>, A: seq<Word>, all: seq<Word>, k: nat, n: nat, l: nat)
    requires l <= 64 && k == n && JoinedTo(out, A, all, k, l)
    ensures JoinedTo(out, A, all, n, l)
  {}

  /** The probes for word k of a list. */
  method ProbeAt(H: array<Word>, y: Word, l: nat, ghost A: seq<Word>, ghost all: seq<Word>, ghost k: nat,
                 out: seq<Triple>) returns (out': seq<Triple>)
    requires l <= 64 && H.Length == 512 && Built(H[..], A, 64 - l) && HasRoom(A)
    requires k < |all| && JoinedTo(out, A, all, k, l) && all[k] == y
    ensures JoinedTo(out', A, all, k + 1, l)
  {
    NextPrefix(all, k);
    out' := Probe(H, y, l, A, all[..k], out, all[..k + 1]);
  }

  method ProbeWindow(H: array<Word>, B: array<Word>, w: Window, l: nat, ghost A: seq<Word>, ghost all: seq<Word>,
                     ghost k: nat, ghost b: seq<Word>, out: seq<Triple>)
    returns (out': seq<Triple>)
    requires l <= 64 && H.Length == 512 && Built(H[..], A, 64 - l) && HasRoom(A)
    requires b == B[..] && EndsWith(all, k, b, w) && JoinedTo(out, A, all, k, l)
    ensures JoinedTo(out', A, all, |all|, l)
  {
    out' := out;
    ghost var j := k;
    for i := 0 to w.n
      invariant j == k + i && JoinedTo(out', A, all, j, l)
    {
      out' := ProbeAt(H, B[w.lo + i], l, A, all, j, out');
      j := j + 1;
    }
    JoinedAll(out', A, all, j, |all|, l);
  }

  lemma EmptyJoin(A: seq<Word>, l: nat)
    requires l <= 64
    ensures IsJoin([], A, [], l)
  {}

  method ProbeNext(H: array<Word>, B: array<Word>, wb: seq<Window>, t: nat, l: nat, ghost T: seq<Word>,
                   ghost A: seq<Word>, ghost b: seq<Word>, out: seq<Triple>)
    returns (out': seq<Triple>)
    requires l <= 64 && H.Length == 512 && T == H[..] && Built(T, A, 64 - l) && HasRoom(A)
    requires b == B[..] && InBounds(b, wb) && t < |wb| && IsJoin(out, A, Gathered(b, wb, t), l)
    ensures IsJoin(out', A, Gathered(b, wb, t + 1), l)
  {
    ghost var vs, all := NextWindow(b, wb, t);
    JoinedPrefix(out, A, vs, all, l);
    out' := ProbeWindow(H, B, wb[t], l, A, all, |vs|, b, out);
    JoinedWhole(out', A, all, l);
  }

  /** subjoin: emits exactly the pairs of the two partitions that agree on their l top bits. */
  method Join(l: nat, A: array<Word>, wa: seq<Window>, B: array<Word>, wb: seq<Window>, ghost a: seq<Word>,
              ghost b: seq<Word>)
    returns (out: seq<Triple>)
    requires l <= 64 && a == A[..] && b == B[..] && InBounds(a, wa) && InBounds(b, wb)
    requires HasRoom(Gathered(a, wa, |wa|))
    ensures IsJoin(out, Gathered(a, wa, |wa|), Gathered(b, wb, |wb|), l)
  {
    var H := new Word[512](_ => {});
    Clear(H);
    BuiltEmpty(64 - l);
    Build(H, A, wa, 64 - l, a);
    out := ProbeAll(H, B, wb, l, Gathered(a, wa, |wa|), b);
  }

  /** The probe phase. */
  method ProbeAll(H: array<Word>, B: array<Word>, wb: seq<Window>, l: nat, ghost As: seq<Word>, ghost b: seq<Word>)
    returns (out: seq<Triple>)
    requires l <= 64 && H.Length == 512 && Built(H[..], As, 64 - l) && HasRoom(As) && b == B[..] && InBounds(b, wb)
    ensures IsJoin(out, As, Gathered(b, wb, |wb|), l)
  {
    ghost var T := H[..];
    out := [];
    EmptyJoin(As, l);
    for t := 0 to |wb|
      invariant T == H[..] && b == B[..] && IsJoin(out, As, Gathered(b, wb, t), l)
    {
      out := ProbeNext(H, B, wb, t, l, T, As, b, out);
    }
  }
}
