/**
The singly linked node shared by all list programs of the repository, and what it
means for a chain of `next` links to be a NULL-terminated list.
*/
module LinkedList {

  class Node {
    var value: int
    var next: Node?

    constructor (value: int)
      ensures this.value == value && this.next == null
    {
      this.value := value;
      this.next := null;
    }
  }

  /** The node at index `i` of a chain, or null just past its end. */
  ghost function Link(nodes: seq<Node>, i: nat): (p: Node?) {
    if i < |nodes| then nodes[i] else null
  }

  /** `head` starts a NULL-terminated list visiting exactly `nodes`, in this order. */
  ghost predicate IsList(head: Node?, nodes: seq<Node>)
    reads nodes`next
  {
    && head == Link(nodes, 0)
    && forall i {:trigger nodes[i].next} :: 0 <= i < |nodes| ==> nodes[i].next == Link(nodes, i + 1)
  }

  ghost predicate Distinct<T>(s: seq<T>) {
    forall i, j :: 0 <= i < j < |s| ==> s[i] != s[j]
  }

  /** The values stored in a sequence of nodes. */
  ghost function Values(nodes: seq<Node>): (vs: seq<int>)
    reads nodes`value
    ensures |vs| == |nodes|
    ensures forall i :: 0 <= i < |nodes| ==> vs[i] == nodes[i].value
  {
    if nodes == [] then [] else [nodes[0].value] + Values(nodes[1..])
  }

  /** Two positions of a NULL-terminated list hold different nodes, because they are not
      equally far from the end. */
  lemma {:induction false} PositionsDiffer(head: Node?, nodes: seq<Node>, i: nat, j: nat)
    requires IsList(head, nodes)
    requires i < j < |nodes|
    ensures nodes[i] != nodes[j]
    decreases |nodes| - j
  {
    if j + 1 < |nodes| {
      PositionsDiffer(head, nodes, i + 1, j + 1);
    }
    assert nodes[i].next == Link(nodes, i + 1) && nodes[j].next == Link(nodes, j + 1);
  }

  /** A NULL-terminated list never visits a node twice: it is acyclic. */
  lemma ListIsAcyclic(head: Node?, nodes: seq<Node>)
    requires IsList(head, nodes)
    ensures Distinct(nodes)
  {
    forall i, j | 0 <= i < j < |nodes| ensures nodes[i] != nodes[j] {
      PositionsDiffer(head, nodes, i, j);
    }
  }

  /** Unlinks the successor of `current`, the node at index `p` of the list. */
  method UnlinkNext(current: Node, ghost head: Node?, ghost nodes: seq<Node>, ghost p: nat)
    requires IsList(head, nodes) && p + 1 < |nodes| && current == nodes[p]
    modifies current`next
    ensures IsList(head, nodes[..p + 1] + nodes[p + 2..])
  {
    ListIsAcyclic(head, nodes);
    current.next := current.next.next;
    ghost var rest := nodes[..p + 1] + nodes[p + 2..];
    assert forall k :: 0 <= k < |rest| ==> rest[k] == nodes[if k <= p then k else k + 1];
  }
}
