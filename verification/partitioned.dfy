/** The splitter at work on hashes: what its slots hold. */
module Partitioned {
  import opened Numbers
  import opened Fips180
  import opened LoserTree
  import opened Hasher
  import opened Splitter
  import opened SplitterProofs
  import opened SplitterRuns

  /** A way of hashing preimages. */
  type HashFunction = Preimage -> seq<Half>

  /** The hash function of one kind of preimages. The nonce of a preimage has 32 bits. */
  function HashOf(kind: Kind): (hash: HashFunction) {
    (p: Preimage) => if p.nonce < 0x1_0000_0000 then FullHash(kind, p) else []
  }

  /** The words of the hash are those of the double digest of the block of that kind. */
  lemma HashOfBlock(kind: Kind, p: Preimage, w: nat)
    requires p.nonce < 0x1_0000_0000 && w < 8
    ensures |HashOf(kind)(p)| == 8
    ensures NumberOf(HashOf(kind)(p)[w], 32) == LittleEndian(Digest(Digest(Plaintext(kind, p))), 4 * w)
  {
    WordsOfDigest(DoubleDigest(kind, p), w);
  }

  /** What a mapper does with a preimage: its hash, if it is valid, goes to the slot of its partition key. */
  function PlaceOf(hash: HashFunction, bits: nat, p: Preimage): (place: Placement)
    requires bits <= 31
  {
    var h := hash(p);
    if |h| == 8 && IsValid(h) then Placed(NumberOf(PartitioningKey(bits, h), bits),
      Entry(NumberOf(PartialHash(h), 64), p))
    else Invalid
  }

  function HashConfig(hash: HashFunction, bits: nat, mappers: nat, capacity: nat, input: seq<Preimage>): (c: Config)
    requires bits <= 31
  {
    Config((p: Preimage) => PlaceOf(hash, bits, p), Pow2(bits), mappers, capacity, input)
  }

  lemma HashConfigIsGood(hash: HashFunction, bits: nat, mappers: nat, capacity: nat, input: seq<Preimage>)
    requires bits <= 31 && mappers > 0
    ensures GoodConfig(HashConfig(hash, bits, mappers, capacity, input))
  {
    var c := HashConfig(hash, bits, mappers, capacity, input);
    forall p | c.place(p).Placed?
      ensures c.place(p).slot < c.slots
    {
      assert c.place(p) == PlaceOf(hash, bits, p);
    }
  }

  lemma {:induction false} CountOccurs(c: Config, ps: seq<Preimage>, w: Where)
    ensures Count(c, ps, w) > 0 <==> exists i :: 0 <= i < |ps| && c.place(ps[i]) == Placed(w.slot, w.entry)
  {
    if ps != [] {
      CountOccurs(c, ps[1..], w);
      if i :| 0 <= i < |ps[1..]| && c.place(ps[1..][i]) == Placed(w.slot, w.entry) {
        assert ps[i + 1] == ps[1..][i];
      }
      if i :| 0 <= i < |ps| && c.place(ps[i]) == Placed(w.slot, w.entry) {
        assert i > 0 ==> ps[1..][i - 1] == ps[i];
      }
    }
  }

  /** When a run has finished, a slot holds exactly the entries that some preimage of the input has its place for. */
  lemma SlotMembers(c: Config, steps: seq<Step>, states: seq<State>, w: Where)
    requires GoodConfig(c) && IsRun(c, steps, states) && Final(c, states[|steps|])
    requires w.slot < c.slots
    ensures |states[|steps|].files| == c.slots
    ensures w.entry in states[|steps|].files[w.slot] <==>
            exists i :: 0 <= i < |c.input| && c.place(c.input[i]) == Placed(w.slot, w.entry)
  {
    SplitterIsCorrect(c, steps, states);
    var file := states[|steps|].files[w.slot];
    assert multiset(file)[w.entry] == Count(c, c.input, w);
    assert w.entry in file <==> w.entry in multiset(file);
    CountOccurs(c, c.input, w);
  }

  /** The slot of a key, when a run has finished: the partial hashes, with their preimages, of the valid preimages with
      that key. */
  lemma SlotHoldsItsPartition(hash: HashFunction, bits: nat, mappers: nat, capacity: nat, input: seq<Preimage>,
                              steps: seq<Step>, states: seq<State>, k: nat, e: Entry)
    requires bits <= 31 && mappers > 0 && k < Pow2(bits)
    requires IsRun(HashConfig(hash, bits, mappers, capacity, input), steps, states)
    requires Final(HashConfig(hash, bits, mappers, capacity, input), states[|steps|])
    ensures |states[|steps|].files| == Pow2(bits)
    ensures e in states[|steps|].files[k] <==> e.preimage in input && PlaceOf(hash, bits, e.preimage) == Placed(k, e)
  {
    HashConfigIsGood(hash, bits, mappers, capacity, input);
    SlotMembers(HashConfig(hash, bits, mappers, capacity, input), steps, states, Where(k, e));
    forall p: Preimage
      ensures PlaceOf(hash, bits, p) == Placed(k, e) ==> p == e.preimage
    {
    }
    if e.preimage in input {
      var i :| 0 <= i < |input| && input[i] == e.preimage;
    }
  }
}
