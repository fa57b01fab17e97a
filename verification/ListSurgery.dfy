/**
Programs that relink a list in place: reversing it, moving its tail to the front, and
finding and unlinking its middle node.
*/
module ListSurgery {
  import opened LinkedList

  // ------------------------------------------------------------ on sequences

  ghost function Reversed<T>(s: seq<T>): (r: seq<T>)
    ensures |r| == |s|
    ensures forall i :: 0 <= i < |s| ==> r[i] == s[|s| - 1 - i]
  {
    if s == [] then [] else Reversed(s[1..]) + [s[0]]
  }

  /** The last element moved to the front. */
  ghost function Rotated<T>(s: seq<T>): (r: seq<T>)
    ensures |r| == |s|
    ensures forall i :: 0 <= i < |r| ==> r[i] in s
    ensures forall i :: 0 <= i < |r| ==> r[i] == if i == 0 then s[|s| - 1] else s[i - 1]
  {
    if s == [] then [] else [s[|s| - 1]] + s[..|s| - 1]
  }

  ghost function RotatedTimes<T>(s: seq<T>, k: nat): (r: seq<T>)
    ensures |r| == |s|
    ensures forall i :: 0 <= i < |r| ==> r[i] in s
  {
    if k == 0 then s else Rotated(RotatedTimes(s, k - 1))
  }

  lemma ReversedTwice<T>(s: seq<T>)
    ensures Reversed(Reversed(s)) == s
  {
    var r := Reversed(s);
    assert forall i :: 0 <= i < |s| ==> Reversed(r)[i] == r[|s| - 1 - i] == s[i];
  }

  /** Rotating `k` times brings the last `k` elements to the front. */
  lemma {:induction false} RotatedTimesSplits<T>(s: seq<T>, k: nat)
    requires k <= |s|
    ensures RotatedTimes(s, k) == s[|s| - k..] + s[..|s| - k]
  {
    if k > 0 {
      RotatedTimesSplits(s, k - 1);
      var r := RotatedTimes(s, k - 1);
      assert r[|s| - 1] == s[|s| - k];
    }
  }

  /** Rotating as often as there are elements changes nothing. */
  lemma RotatedFullCircle<T>(s: seq<T>)
    ensures RotatedTimes(s, |s|) == s
  {
    RotatedTimesSplits(s, |s|);
  }

  lemma RotateReverseRotate<T>(s: seq<T>)
    ensures Rotated(Reversed(Rotated(s))) == Reversed(s)
  {
    var n, a := |s|, Rotated(s);
    forall i | 0 <= i < n ensures Rotated(Reversed(a))[i] == s[n - 1 - i] {
      if i == 0 { assert Reversed(a)[n - 1] == a[0]; } else { assert Reversed(a)[i - 1] == a[n - i]; }
    }
  }

  /** Between two reversals, a rotation undoes a rotation. */
  lemma ReverseRotateReverse<T>(s: seq<T>)
    ensures Reversed(Rotated(Reversed(Rotated(s)))) == s
    ensures Rotated(Reversed(Rotated(Reversed(s)))) == s
  {
    RotateReverseRotate(s);
    ReversedTwice(s);
    RotateReverseRotate(Reversed(s));
  }

  // ------------------------------------------------------------ on the heap

  /** The first `i` links point backwards, the others still forwards. */
  ghost predicate TurnedUpTo(nodes: seq<Node>, i: nat)
    reads nodes`next
  {
    forall k {:trigger nodes[k].next} :: 0 <= k < |nodes| ==>
      nodes[k].next == if k >= i then Link(nodes, k + 1) else if k == 0 then null else nodes[k - 1]
  }

  lemma AllTurned(nodes: seq<Node>)
    requires TurnedUpTo(nodes, |nodes|)
    ensures IsList(if nodes == [] then null else nodes[|nodes| - 1], Reversed(nodes))
  {
    var r := Reversed(nodes);
    forall k | 0 <= k < |r| ensures r[k].next == Link(r, k + 1) {
      var j := |nodes| - 1 - k;
      assert r[k] == nodes[j] && (j > 0 ==> r[k + 1] == nodes[j - 1]);
    }
  }

  /** reverse: the links of exactly these nodes are turned round. */
  method Reverse(head: Node, ghost nodes: seq<Node>) returns (newHead: Node?)
    requires IsList(head, nodes)
    modifies nodes`next
    ensures IsList(newHead, Reversed(nodes))
  {
    ListIsAcyclic(head, nodes);
    var current: Node?, prevOne: Node?, nextOne: Node? := head, null, head.next;
    ghost var i := 0;
    while current != null
      invariant i <= |nodes| && current == Link(nodes, i)
      invariant prevOne == if i == 0 then null else nodes[i - 1]
      invariant TurnedUpTo(nodes, i)
      decreases |nodes| - i
    {
      nextOne := current.next;
      current.next := prevOne;
      prevOne := current;
      current := nextOne;
      i := i + 1;
    }
    newHead := prevOne;
    AllTurned(nodes);
  }

  /** move_tail_to_head: the last node becomes the first. */
  method MoveTailToHead(head: Node?, ghost nodes: seq<Node>) returns (newHead: Node?)
    requires IsList(head, nodes)
    modifies nodes`next
    ensures IsList(newHead, Rotated(nodes))
  {
    if head == null { return head; }
    if head.next == null { return head; }
    ListIsAcyclic(head, nodes);
    var current, prev := head, head;
    ghost var i := 0;
    while current.next != null
      invariant i < |nodes| && current == nodes[i]
      invariant i > 0 ==> prev == nodes[i - 1]
      decreases |nodes| - i
    {
      prev := current;
      current := current.next;
      i := i + 1;
    }
    current.next := head;
    newHead := current;
    prev.next := null;
    assert forall k :: 1 <= k < |nodes| ==> Rotated(nodes)[k] == nodes[k - 1];
  }

  /** Reversing twice restores every link. */
  method ReverseTwice(head: Node, ghost nodes: seq<Node>) returns (newHead: Node?)
    requires IsList(head, nodes)
    modifies nodes`next
    ensures newHead == head && IsList(head, nodes)
  {
    var mid := Reverse(head, nodes);
    newHead := Reverse(mid, Reversed(nodes));
    ReversedTwice(nodes);
  }

  method RotateTimes(head: Node?, k: nat, ghost nodes: seq<Node>) returns (newHead: Node?)
    requires IsList(head, nodes)
    modifies nodes`next
    ensures IsList(newHead, RotatedTimes(nodes, k))
  {
    newHead := head;
    if k > 0 {
      newHead := RotateTimes(head, k - 1, nodes);
      newHead := MoveTailToHead(newHead, RotatedTimes(nodes, k - 1));
    }
  }

  /** Rotating a list of `n` nodes `n` times restores every link. */
  method RotateFullCircle(head: Node?, n: nat, ghost nodes: seq<Node>) returns (newHead: Node?)
    requires IsList(head, nodes) && n == |nodes|
    modifies nodes`next
    ensures newHead == head && IsList(head, nodes)
  {
    newHead := RotateTimes(head, n, nodes);
    RotatedFullCircle(nodes);
  }

  /** Rotating, reversing, rotating and reversing again restores every link. */
  method RotateAndBack(head: Node, ghost nodes: seq<Node>) returns (newHead: Node?)
    requires IsList(head, nodes)
    modifies nodes`next
    ensures newHead == head && IsList(head, nodes)
  {
    ghost var a := Rotated(nodes);
    ghost var b := Reversed(a);
    ghost var c := Rotated(b);
    newHead := MoveTailToHead(head, nodes);
    newHead := Reverse(newHead, a);
    newHead := MoveTailToHead(newHead, b);
    newHead := Reverse(newHead, c);
    ReverseRotateReverse(nodes);
  }

  // ------------------------------------------------------------ the middle

  /** search_middle with two pointers, returning the node. */
  method FindMiddle(head: Node?, ghost nodes: seq<Node>) returns (mid: Node?)
    requires IsList(head, nodes)
    ensures mid == Link(nodes, |nodes| / 2)
  {
    var fast, slow := head, head;
    if head == null { return null; }
    ghost var i := 0;
    while fast != null && fast.next != null
      invariant 2 * i <= |nodes| && slow == Link(nodes, i) && fast == Link(nodes, 2 * i)
      decreases |nodes| - i
    {
      fast := fast.next.next;
      slow := slow.next;
      i := i + 1;
    }
    return slow;
  }

  /** search_middle with two pointers, returning the value. */
  method SearchMiddleTwoPointers(head: Node?, ghost nodes: seq<Node>) returns (r: int)
    requires IsList(head, nodes)
    ensures r == if nodes == [] then -1 else nodes[|nodes| / 2].value
  {
    var fast, slow := head, head;
    if head == null { return -1; }
    ghost var i := 0;
    while fast != null && fast.next != null
      invariant 2 * i <= |nodes| && slow == Link(nodes, i) && fast == Link(nodes, 2 * i)
      decreases |nodes| - i
    {
      fast := fast.next.next;
      slow := slow.next;
      i := i + 1;
    }
    return slow.value;
  }

  /** search_middle by counting first: the form the two pointers refine. */
  method SearchMiddleByCount(head: Node?, ghost nodes: seq<Node>) returns (r: int)
    requires IsList(head, nodes)
    ensures r == if nodes == [] then -1 else nodes[|nodes| / 2].value
  {
    var current, len := head, 0;
    if head == null { return -1; }
    while current != null
      invariant len <= |nodes| && current == Link(nodes, len)
      decreases |nodes| - len
    {
      current := current.next;
      len := len + 1;
    }
    if len == 1 { return head.value; }
    var middle := len / 2;
    current := head;
    for i := 0 to middle
      invariant current == nodes[i]
    {
      current := current.next;
    }
    return current.value;
  }

  /** delete_middle: unlinks the given node, which must not be the first. */
  method DeleteMiddle(head: Node, mid: Node, ghost nodes: seq<Node>, ghost m: nat)
    requires IsList(head, nodes) && 0 < m < |nodes| && mid == nodes[m]
    modifies nodes`next
    ensures IsList(head, nodes[..m] + nodes[m + 1..])
  {
    ListIsAcyclic(head, nodes);
    var current := head;
    ghost var i := 0;
    while current.next != mid
      invariant i < m && current == nodes[i]
      decreases m - i
    {
      current := current.next;
      i := i + 1;
    }
    current.next := mid.next;
    ghost var rest := nodes[..m] + nodes[m + 1..];
    assert forall k :: 0 <= k < |rest| ==> rest[k] == nodes[if k < m then k else k + 1];
  }

  /** Search and delete: with two nodes or more, exactly the one at `len / 2` goes. */
  method DeleteFoundMiddle(head: Node, ghost nodes: seq<Node>)
    requires IsList(head, nodes) && |nodes| >= 2
    modifies nodes`next
    ensures IsList(head, nodes[..|nodes| / 2] + nodes[|nodes| / 2 + 1..])
  {
    var mid := FindMiddle(head, nodes);
    DeleteMiddle(head, mid, nodes, |nodes| / 2);
  }
}
