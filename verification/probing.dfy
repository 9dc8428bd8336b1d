/** Open addressing with linear probing in a table of 512 words, where the zero word marks an empty slot. */
module Probing {
  import opened Words

  function EmptyTable(): (T: seq<Word>)
    ensures |T| == 512 && forall s | 0 <= s < 512 :: T[s] == {}
  {
    seq<Word>(512, _ => {})
  }

  type Table = T: seq<Word> | |T| == 512 witness EmptyTable()

  type Slot = s: nat | s < 512

  /** (s + 1) & 511 */
  function Next(s: Slot): (n: Slot) {
    (s + 1) % 512
  }

  /** The slot e steps after s. */
  function Ahead(s: Slot, e: nat): (t: Slot)
    requires e < 512
  {
    if s + e < 512 then s + e else s + e - 512
  }

  lemma AheadNext(s: Slot, e: nat)
    requires e < 511
    ensures Next(Ahead(s, e)) == Ahead(s, e + 1)
  {}

  /** The number of steps from s to t. */
  function Distance(s: Slot, t: Slot): (e: nat)
    ensures e < 512 && Ahead(s, e) == t
  {
    if t >= s then t - s else t + 512 - s
  }

  /** The slots from s on are occupied for e steps. */
  ghost predicate Occupied(T: Table, s: Slot, e: nat)
    requires e < 512
  {
    forall i | 0 <= i < e :: T[Ahead(s, i)] != {}
  }

  lemma OccupiedNext(T: Table, s: Slot, e: nat)
    requires e < 511 && Occupied(T, s, e) && T[Ahead(s, e)] != {}
    ensures Occupied(T, s, e + 1)
  {}

  /** Every word of the table can be reached from its home without meeting an empty slot. */
  ghost predicate Probed(T: Table, home: Word -> Slot) {
    forall t | 0 <= t < 512 && T[t] != {} :: Occupied(T, home(T[t]), Distance(home(T[t]), t))
  }

  /** Storing a word in the first empty slot from its home keeps all the words reachable. */
  lemma StoreKeepsProbed(T: Table, home: Word -> Slot, x: Word, e: nat)
    requires Probed(T, home) && e < 512 && Occupied(T, home(x), e) && T[Ahead(home(x), e)] == {}
    ensures Probed(T[Ahead(home(x), e) := x], home)
  {
    var s := Ahead(home(x), e);
    var T': Table := T[s := x];
    forall t | 0 <= t < 512 && T'[t] != {}
      ensures Occupied(T', home(T'[t]), Distance(home(T'[t]), t))
    {
      if t == s {
        assert Distance(home(x), s) == e;
      } else {
        assert Occupied(T, home(T[t]), Distance(home(T[t]), t));
      }
    }
  }

  /** A word at its home's side of an empty slot: nothing with that home lies past the first empty slot. */
  lemma NothingPastEmpty(T: Table, home: Word -> Slot, h: Slot, e: nat, t: Slot)
    requires Probed(T, home) && e < 512 && T[Ahead(h, e)] == {}
    requires T[t] != {} && home(T[t]) == h
    ensures Distance(h, t) < e
  {
    assert Occupied(T, h, Distance(h, t));
  }

  lemma StoreMultiset(T: Table, s: Slot, x: Word)
    requires T[s] == {}
    ensures multiset(T[s := x]) == multiset(T) - multiset{{}} + multiset{x}
  {
    assert T == T[..s] + [T[s]] + T[s + 1..];
    assert T[s := x] == T[..s] + [x] + T[s + 1..];
  }

  /** The table read from slot h on, around to h. */
  ghost function Rotated(T: Table, h: Slot): (R: Table)
    ensures multiset(R) == multiset(T)
    ensures forall e | 0 <= e < 512 :: R[e] == T[Ahead(h, e)]
  {
    assert T == T[..h] + T[h..];
    T[h..] + T[..h]
  }

  /** The words seen from h before the first empty slot include every occurrence of a word with home h. */
  lemma SeenCompletely(T: Table, home: Word -> Slot, h: Slot, e: nat, x: Word)
    requires Probed(T, home) && e < 512 && T[Ahead(h, e)] == {} && x != {} && home(x) == h
    ensures multiset(Rotated(T, h)[..e])[x] == multiset(T)[x]
  {
    var R := Rotated(T, h);
    forall i | e <= i < 512
      ensures R[i] != x
    {
      if R[i] == x {
        NothingPastEmpty(T, home, h, e, Ahead(h, i));
      }
    }
    assert x !in R[e..];
    assert R == R[..e] + R[e..];
    assert multiset(R)[x] == multiset(R[..e])[x] + multiset(R[e..])[x];
  }

  /** A table with an empty slot has one at some distance from h. */
  lemma FirstEmpty(T: Table, h: Slot) returns (e: nat)
    requires {} in T
    ensures e < 512 && T[Ahead(h, e)] == {}
  {
    var t :| 0 <= t < 512 && T[t] == {};
    e := Distance(h, t);
  }

  /** The first empty slot among those that lie e steps or more after h. */
  function FirstFree(T: Table, h: Slot, e: nat): (s: Slot)
    requires e < 512
    decreases 512 - e
  {
    if T[Ahead(h, e)] == {} || e == 511 then Ahead(h, e) else FirstFree(T, h, e + 1)
  }

  lemma {:induction false} FirstFreeAt(T: Table, h: Slot, e: nat, i: nat)
    requires i <= e < 512 && Occupied(T, h, e) && T[Ahead(h, e)] == {}
    ensures FirstFree(T, h, i) == Ahead(h, e)
    decreases e - i
  {
    if i < e {
      FirstFreeAt(T, h, e, i + 1);
    }
  }

  /** Stores x in the first empty slot from its home h on. */
  method ProbeInsert(H: array<Word>, x: Word, h: Slot, ghost home: Word -> Slot)
    requires H.Length == 512 && Probed(H[..], home) && {} in H[..] && h == home(x)
    modifies H
    ensures Probed(H[..], home)
    ensures multiset(H[..]) == multiset(old(H[..])) - multiset{{}} + multiset{x}
    ensures H[..] == old(H[..])[FirstFree(old(H[..]), h, 0) := x]
  {
    var s := h;
    ghost var e := 0;
    ghost var bound := FirstEmpty(H[..], h);
    while H[s] != {}
      invariant e <= bound && s == Ahead(h, e) && Occupied(H[..], h, e)
      decreases bound - e
    {
      s := Next(s);
      e := e + 1;
    }
    StoreKeepsProbed(H[..], home, x, e);
    StoreMultiset(H[..], s, x);
    FirstFreeAt(H[..], h, e, 0);
    H[s] := x;
    assert H[..] == old(H[..])[s := x];
  }
}
