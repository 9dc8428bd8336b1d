/** The circular doubly-linked lists, with a dummy header node, that hold the vectors. */
module Lists {
  import opened Words

  class Node {
    /** The vector is set once, before the node is linked. */
    const x: Word
    var next: Node
    var prev: Node

    constructor (x: Word)
      ensures this.x == x && next == this && prev == this
    {
      this.x := x;
      next := this;
      prev := this;
    }
  }

  /** ring lists, from some node on, the nodes of a well-formed circular list. */
  ghost predicate Ring(ring: seq<Node>)
    reads ring
  {
    && |ring| > 0
    && (forall i, j | 0 <= i < j < |ring| :: ring[i] != ring[j])
    && (forall i {:trigger ring[i].next} | 0 <= i < |ring| - 1 :: ring[i].next == ring[i + 1])
    && ring[|ring| - 1].next == ring[0]
    && (forall i {:trigger ring[i].prev} | 1 <= i < |ring| :: ring[i].prev == ring[i - 1])
    && ring[0].prev == ring[|ring| - 1]
  }

  /** The vectors held by the nodes. */
  ghost function Vectors(nodes: seq<Node>): (vs: seq<Word>)
    ensures |vs| == |nodes| && forall i | 0 <= i < |vs| :: vs[i] == nodes[i].x
  {
    seq(|nodes|, i requires 0 <= i < |nodes| => nodes[i].x)
  }

  method ListInsert(list: Node, item: Node, ghost ring: seq<Node>)
    requires Ring(ring) && ring[0] == list && item !in ring
    modifies item`next, item`prev, list`next, list.next`prev
    ensures Ring([list, item] + ring[1..])
  {
    item.next := list.next;
    item.prev := list;
    item.next.prev := item;
    item.prev.next := item;
    ghost var ring' := [list, item] + ring[1..];
    assert forall i | 2 <= i < |ring'| :: ring'[i] == ring[i - 1];
  }

  method ListRemove(item: Node, ghost ring: seq<Node>, ghost p: nat)
    requires Ring(ring) && 1 <= p < |ring| && item == ring[p]
    modifies item.next`prev, item.prev`next
    ensures Ring(ring[..p] + ring[p + 1..])
  {
    item.next.prev := item.prev;
    item.prev.next := item.next;
    ghost var ring' := ring[..p] + ring[p + 1..];
    assert forall i | 0 <= i < |ring'| :: ring'[i] == if i < p then ring[i] else ring[i + 1];
  }

  method ListClear(item: Node)
    requires item.x == {}
    modifies item
    ensures Ring([item])
  {
    item.next := item;
    item.prev := item;
  }
}
