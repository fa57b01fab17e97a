/**
Removing duplicates from a list in place: with the hash table for any list, and by
comparing neighbours for a sorted one.
*/
module DeleteDuplicates {
  import opened LinkedList
  import opened HashTable

  // ------------------------------------------------------------ subsequences

  /** The elements whose flag is set, in order. */
  ghost function Select<T>(s: seq<T>, keep: seq<bool>): (r: seq<T>)
    requires |s| == |keep|
    ensures forall i :: 0 <= i < |r| ==> r[i] in s
  {
    if s == [] then []
    else
      var n := |s| - 1;
      Select(s[..n], keep[..n]) + if keep[n] then [s[n]] else []
  }

  lemma SelectPrefix<T>(s: seq<T>, keep: seq<bool>, i: nat)
    requires |s| == |keep| && i < |s|
    ensures Select(s[..i + 1], keep[..i + 1]) ==
            Select(s[..i], keep[..i]) + if keep[i] then [s[i]] else []
  {
    assert s[..i + 1][..i] == s[..i] && keep[..i + 1][..i] == keep[..i];
  }

  lemma {:induction false} SelectFewer<T>(s: seq<T>, f: seq<bool>, g: seq<bool>)
    requires |s| == |f| == |g| && forall i :: 0 <= i < |s| && f[i] ==> g[i]
    ensures |Select(s, f)| <= |Select(s, g)|
    ensures f != g ==> |Select(s, f)| < |Select(s, g)|
  {
    if s != [] {
      var n := |s| - 1;
      SelectFewer(s[..n], f[..n], g[..n]);
      assert f == f[..n] + [f[n]] && g == g[..n] + [g[n]];
    }
  }

  // ------------------------------------------------------------ which are kept

  /** All values hash to a bucket of the table. */
  ghost predicate AllHashable(vs: seq<int>) {
    forall i :: 0 <= i < |vs| ==> IsHashable(vs[i])
  }

  ghost predicate NewBucket(vs: seq<int>, i: nat, occupied: set<int>)
    requires i < |vs|
  {
    && HashFunc(vs[i]) !in occupied
    && forall j :: 0 <= j < i ==> HashFunc(vs[j]) != HashFunc(vs[i])
  }

  /** The head, and every element that is the first of its bucket, given the buckets
      occupied before. */
  ghost function FirstOfBucket(vs: seq<int>, occupied: set<int>): (keep: seq<bool>)
    ensures |keep| == |vs|
    ensures forall i {:trigger keep[i]} :: 0 <= i < |vs| ==> (keep[i] <==> i == 0 || NewBucket(vs, i, occupied))
  {
    seq(|vs|, i requires 0 <= i < |vs| => i == 0 || NewBucket(vs, i, occupied))
  }

  /** Every element that has not occurred before. */
  ghost function FirstOccurrence(vs: seq<int>): (keep: seq<bool>)
    ensures |keep| == |vs|
    ensures forall i {:trigger keep[i]} :: 0 <= i < |vs| ==> (keep[i] <==> vs[i] !in vs[..i])
  {
    seq(|vs|, i requires 0 <= i < |vs| => vs[i] !in vs[..i])
  }

  /** Every element that differs from its neighbour on the left. */
  ghost function DiffersFromLeft(vs: seq<int>): (keep: seq<bool>)
    ensures |keep| == |vs|
    ensures forall i {:trigger keep[i]} :: 0 <= i < |vs| ==> (keep[i] <==> i == 0 || vs[i - 1] != vs[i])
  {
    seq(|vs|, i requires 0 <= i < |vs| => i == 0 || vs[i - 1] != vs[i])
  }

  /** No two different values share a bucket. */
  ghost predicate CollisionFree(vs: seq<int>) {
    forall i, j :: 0 <= i < j < |vs| && HashFunc(vs[i]) == HashFunc(vs[j]) ==> vs[i] == vs[j]
  }

  lemma FirstOfBucketIsFirstOccurrence(vs: seq<int>, i: nat)
    requires i < |vs|
    ensures FirstOfBucket(vs, {})[i] ==> FirstOccurrence(vs)[i]
  {
  }

  lemma SameFlagsWhenCollisionFree(vs: seq<int>)
    requires CollisionFree(vs)
    ensures FirstOfBucket(vs, {}) == FirstOccurrence(vs)
  {
    forall i | 0 <= i < |vs| ensures FirstOfBucket(vs, {})[i] == FirstOccurrence(vs)[i] {
      FirstOfBucketIsFirstOccurrence(vs, i);
      if FirstOccurrence(vs)[i] {
        forall j | 0 <= j < i ensures HashFunc(vs[j]) != HashFunc(vs[i]) {
          assert vs[..i][j] == vs[j];
        }
      }
    }
  }

  lemma {:induction false} FirstIndexOf(vs: seq<int>, j: nat) returns (i: nat)
    requires j < |vs|
    ensures i <= j && vs[i] == vs[j] && FirstOccurrence(vs)[i]
    decreases j
  {
    i := j;
    if vs[j] in vs[..j] {
      var k :| 0 <= k < j && vs[..j][k] == vs[j];
      i := FirstIndexOf(vs, k);
    }
  }

  /** A collision loses a value: its first occurrence is not the first of its bucket. */
  lemma CollisionDropsAValue(vs: seq<int>, i: nat, j: nat)
    requires i < |vs| && j < |vs| && vs[i] != vs[j] && HashFunc(vs[i]) == HashFunc(vs[j])
    ensures FirstOfBucket(vs, {}) != FirstOccurrence(vs)
  {
    var p := FirstIndexOf(vs, i);
    var q := FirstIndexOf(vs, j);
    var later := if p < q then q else p;
    var earlier := if p < q then p else q;
    assert HashFunc(vs[earlier]) == HashFunc(vs[later]) && earlier < later;
    assert !FirstOfBucket(vs, {})[later] && FirstOccurrence(vs)[later];
  }

  /** From a fresh table the hash version is first-occurrence de-duplication if and only if
      no two different values of the list share a bucket. */
  lemma HashIsExactIffCollisionFree(vs: seq<int>)
    ensures Select(vs, FirstOfBucket(vs, {})) == Select(vs, FirstOccurrence(vs)) <==> CollisionFree(vs)
  {
    if CollisionFree(vs) {
      SameFlagsWhenCollisionFree(vs);
    } else {
      var i, j :| 0 <= i < j < |vs| && HashFunc(vs[i]) == HashFunc(vs[j]) && vs[i] != vs[j];
      CollisionDropsAValue(vs, i, j);
      forall m | 0 <= m < |vs| && FirstOfBucket(vs, {})[m] ensures FirstOccurrence(vs)[m] {
        FirstOfBucketIsFirstOccurrence(vs, m);
      }
      SelectFewer(vs, FirstOfBucket(vs, {}), FirstOccurrence(vs));
    }
  }

  /** Values below 20 do not collide. */
  ghost predicate BelowTwenty(vs: seq<int>) {
    forall i :: 0 <= i < |vs| ==> 0 <= vs[i] < 20
  }

  /** So on a list of such values the hash version keeps exactly the first occurrences. */
  lemma SmallValuesAreExact(vs: seq<int>)
    requires BelowTwenty(vs)
    ensures AllHashable(vs) && FirstOfBucket(vs, {}) == FirstOccurrence(vs)
  {
    forall i, j | 0 <= i < j < |vs| && HashFunc(vs[i]) == HashFunc(vs[j]) ensures vs[i] == vs[j] {
      TwentyBuckets(vs[i], vs[j]);
      TwentyBuckets(vs[j], vs[i]);
    }
    SameFlagsWhenCollisionFree(vs);
  }

  /** What the first occurrences are good for: every value stays, and none of them twice. */
  lemma {:induction false} FirstOccurrencesSuffice(vs: seq<int>)
    ensures var r := Select(vs, FirstOccurrence(vs));
            && (forall x :: x in r <==> x in vs)
            && (forall i, j :: 0 <= i < j < |r| ==> r[i] != r[j])
  {
    if vs != [] {
      var n := |vs| - 1;
      FirstOccurrencesSuffice(vs[..n]);
      assert FirstOccurrence(vs)[..n] == FirstOccurrence(vs[..n]) by {
        assert forall i :: 0 <= i < n ==> vs[..i] == vs[..n][..i];
      }
      assert vs == vs[..n] + [vs[n]];
    }
  }

  /** 5 and 25 share a bucket, so of these two values only one survives. */
  lemma CollisionExample()
    ensures Select([5, 25], FirstOfBucket([5, 25], {})) != Select([5, 25], FirstOccurrence([5, 25]))
  {
    HashIsExactIffCollisionFree([5, 25]);
    assert [5, 25][0] == 5 && [5, 25][1] == 25;
  }

  ghost predicate Ascending(vs: seq<int>) {
    forall i, j :: 0 <= i < j < |vs| ==> vs[i] <= vs[j]
  }

  /** On a sorted list, comparing neighbours finds exactly the first occurrences. */
  lemma NeighboursSufficeWhenSorted(vs: seq<int>)
    requires Ascending(vs)
    ensures DiffersFromLeft(vs) == FirstOccurrence(vs)
  {
    forall i | 0 <= i < |vs| ensures DiffersFromLeft(vs)[i] == FirstOccurrence(vs)[i] {
      if i > 0 {
        assert vs[..i][i - 1] == vs[i - 1];
        if vs[i] in vs[..i] {
          var j :| 0 <= j < i && vs[..i][j] == vs[i];
          assert vs[j] <= vs[i - 1] <= vs[i];
        }
      }
    }
  }

  /** On a sorted list without collisions both programs keep the same nodes. */
  lemma HashAgreesWithSorted(vs: seq<int>)
    requires Ascending(vs) && CollisionFree(vs)
    ensures FirstOfBucket(vs, {}) == DiffersFromLeft(vs)
  {
    SameFlagsWhenCollisionFree(vs);
    NeighboursSufficeWhenSorted(vs);
  }

  // ------------------------------------------------------------ the programs

  /** `i` nodes have been looked at: those kept come first, then the untouched rest. */
  ghost function Remaining(nodes: seq<Node>, keep: seq<bool>, i: nat): (l: seq<Node>)
    requires |keep| == |nodes| && i <= |nodes|
    ensures |l| == |Select(nodes[..i], keep[..i])| + |nodes| - i
    ensures forall k :: 0 <= k < |l| ==> l[k] in nodes
  {
    assert forall x :: x in nodes[..i] ==> x in nodes;
    Select(nodes[..i], keep[..i]) + nodes[i..]
  }

  /** `current` is the last node kept so far. */
  ghost predicate AtLastKept(current: Node, nodes: seq<Node>, keep: seq<bool>, i: nat) {
    && |keep| == |nodes| && i <= |nodes|
    && var kept := Select(nodes[..i], keep[..i]);
    kept != [] && current == kept[|kept| - 1]
  }

  lemma KeepNext(nodes: seq<Node>, keep: seq<bool>, i: nat)
    requires |keep| == |nodes| && i < |nodes| && keep[i]
    ensures Remaining(nodes, keep, i + 1) == Remaining(nodes, keep, i)
    ensures AtLastKept(nodes[i], nodes, keep, i + 1)
  {
    SelectPrefix(nodes, keep, i);
    assert nodes[i..] == [nodes[i]] + nodes[i + 1..];
  }

  lemma DropNext(nodes: seq<Node>, keep: seq<bool>, i: nat)
    requires |keep| == |nodes| && i < |nodes| && !keep[i] && Select(nodes[..i], keep[..i]) != []
    ensures var l, p := Remaining(nodes, keep, i), |Select(nodes[..i], keep[..i])| - 1;
            Remaining(nodes, keep, i + 1) == l[..p + 1] + l[p + 2..]
    ensures Select(nodes[..i + 1], keep[..i + 1]) == Select(nodes[..i], keep[..i])
  {
    SelectPrefix(nodes, keep, i);
  }

  /** `i` nodes looked at, `current` the last one kept, the node at `i` next in line. */
  ghost predicate Sweeping(head: Node?, current: Node, nodes: seq<Node>, keep: seq<bool>, i: nat)
    reads nodes`next
  {
    && AtLastKept(current, nodes, keep, i) && current in nodes
    && IsList(head, Remaining(nodes, keep, i))
    && current.next == Link(nodes, i)
  }

  lemma SweepingIf(head: Node?, current: Node, nodes: seq<Node>, keep: seq<bool>, i: nat)
    requires AtLastKept(current, nodes, keep, i) && IsList(head, Remaining(nodes, keep, i))
    ensures Sweeping(head, current, nodes, keep, i)
  {
    var l, p := Remaining(nodes, keep, i), |Select(nodes[..i], keep[..i])| - 1;
    assert l[p] == current && l[p].next == Link(l, p + 1);
  }

  /** Looking at the next node: it is either unlinked or becomes the last one kept. */
  method KeepOrUnlink(current: Node, drop: bool,
                      ghost head: Node?, ghost nodes: seq<Node>, ghost keep: seq<bool>, ghost i: nat)
    returns (current': Node)
    requires Sweeping(head, current, nodes, keep, i) && i < |nodes| && drop == !keep[i]
    modifies current`next
    ensures Sweeping(head, current', nodes, keep, i + 1)
    ensures current' == if drop then current else nodes[i]
  {
    if drop {
      ghost var p := |Select(nodes[..i], keep[..i])| - 1;
      DropNext(nodes, keep, i);
      UnlinkNext(current, head, Remaining(nodes, keep, i), p);
      current' := current;
    } else {
      KeepNext(nodes, keep, i);
      current' := current.next;
    }
    SweepingIf(head, current', nodes, keep, i + 1);
  }

  lemma StartWithHead(head: Node, nodes: seq<Node>, keep: seq<bool>)
    requires IsList(head, nodes) && |keep| == |nodes| && keep[0]
    ensures Sweeping(head, head, nodes, keep, 1)
  {
    assert nodes[..0] == [] && keep[..0] == [];
    SelectPrefix(nodes, keep, 0);
    assert Remaining(nodes, keep, 1) == nodes;
    SweepingIf(head, head, nodes, keep, 1);
  }

  lemma AllLookedAt(nodes: seq<Node>, keep: seq<bool>)
    requires |keep| == |nodes|
    ensures Remaining(nodes, keep, |nodes|) == Select(nodes, keep)
  {
    assert nodes[..|nodes|] == nodes && keep[..|nodes|] == keep;
  }

  /** delete_duplicate on a non-empty list: of equal neighbours only the first stays. */
  method DeleteDuplicate(head: Node, ghost nodes: seq<Node>)
    requires IsList(head, nodes)
    modifies nodes`next
    ensures IsList(head, Select(nodes, DiffersFromLeft(Values(nodes))))
  {
    ghost var vs := Values(nodes);
    ghost var keep := DiffersFromLeft(vs);
    var current := head;
    ghost var i := 1;
    StartWithHead(head, nodes, keep);
    while current.next != null
      invariant 1 <= i <= |nodes| && Values(nodes) == vs
      invariant Sweeping(head, current, nodes, keep, i) && current.value == vs[i - 1]
      decreases |nodes| - i
    {
      current := KeepOrUnlink(current, current.value == current.next.value, head, nodes, keep, i);
      i := i + 1;
    }
    AllLookedAt(nodes, keep);
  }

  /** The buckets of the first `i` values. */
  ghost function BucketsOf(vs: seq<int>, i: nat): set<int>
    requires i <= |vs|
  {
    if i == 0 then {} else BucketsOf(vs, i - 1) + {HashFunc(vs[i - 1])}
  }

  lemma {:induction false} BucketMember(vs: seq<int>, i: nat, b: int)
    requires i <= |vs|
    ensures b in BucketsOf(vs, i) <==> exists j :: 0 <= j < i && HashFunc(vs[j]) == b
  {
    if i > 0 { BucketMember(vs, i - 1, b); }
  }

  /** find_item, and insert_item if it found nothing. */
  method FindOrInsert(table: Table, value: Hashable, ghost vs: seq<int>, ghost i: nat, ghost occupied: set<int>)
    returns (found: bool)
    requires table.Valid() && i < |vs| && value == vs[i]
    requires table.Contents().Keys == occupied + BucketsOf(vs, i)
    modifies table`sizeUsed, table.items
    ensures table.Valid() && table.Contents().Keys == occupied + BucketsOf(vs, i + 1)
    ensures found == !NewBucket(vs, i, occupied)
  {
    BucketMember(vs, i, HashFunc(value));
    var f := table.Find(value);
    found := f != 0;
    if !found {
      var outcome := table.Insert(value);
    }
  }

  /** The table records the buckets of the first `i` values. */
  ghost predicate Recorded(table: Table, occupied: set<int>, vs: seq<int>, i: nat)
    reads table, table.items
  {
    table.Valid() && i <= |vs| && table.Contents().Keys == occupied + BucketsOf(vs, i)
  }

  /** The body of the loop. */
  method LookAtNext(current: Node, table: Table, ghost head: Node?, ghost nodes: seq<Node>,
                    ghost vs: seq<int>, ghost i: nat, ghost occupied: set<int>)
    returns (current': Node)
    requires 1 <= i < |nodes| && vs == Values(nodes) && AllHashable(vs)
    requires Sweeping(head, current, nodes, FirstOfBucket(vs, occupied), i)
    requires Recorded(table, occupied, vs, i)
    modifies current`next, table`sizeUsed, table.items
    ensures Sweeping(head, current', nodes, FirstOfBucket(vs, occupied), i + 1)
    ensures Recorded(table, occupied, vs, i + 1)
  {
    var found := FindOrInsert(table, current.next.value, vs, i, occupied);
    current' := KeepOrUnlink(current, found, head, nodes, FirstOfBucket(vs, occupied), i);
  }

  /** The loop, from the head on. */
  method SweepRest(head: Node, table: Table, ghost nodes: seq<Node>, ghost vs: seq<int>, ghost occupied: set<int>)
    requires nodes != [] && vs == Values(nodes) && AllHashable(vs)
    requires Sweeping(head, head, nodes, FirstOfBucket(vs, occupied), 1) && Recorded(table, occupied, vs, 1)
    modifies nodes`next, table`sizeUsed, table.items
    ensures IsList(head, Select(nodes, FirstOfBucket(vs, occupied)))
    ensures Recorded(table, occupied, vs, |nodes|)
  {
    ghost var keep := FirstOfBucket(vs, occupied);
    var current := head;
    ghost var i := 1;
    while current.next != null
      invariant 1 <= i <= |nodes|
      invariant Sweeping(head, current, nodes, keep, i)
      invariant Recorded(table, occupied, vs, i)
      decreases |nodes| - i
    {
      current := LookAtNext(current, table, head, nodes, vs, i, occupied);
      i := i + 1;
    }
    AllLookedAt(nodes, keep);
  }

  /** The head goes into the table whatever the table holds. */
  method InsertFirst(table: Table, value: Hashable, ghost vs: seq<int>)
    requires table.Valid() && vs != [] && value == vs[0]
    modifies table`sizeUsed, table.items
    ensures Recorded(table, old(table.Contents().Keys), vs, 1)
  {
    var outcome := table.Insert(value);
    assert BucketsOf(vs, 1) == {HashFunc(vs[0])};
  }

  /** The head is inserted, then the rest is swept. */
  method SweepFrom(head: Node, table: Table, ghost nodes: seq<Node>, ghost vs: seq<int>)
    requires IsList(head, nodes) && vs == Values(nodes) && AllHashable(vs) && table.Valid()
    modifies nodes`next, table`sizeUsed, table.items
    ensures IsList(head, Select(nodes, FirstOfBucket(vs, old(table.Contents().Keys))))
    ensures Recorded(table, old(table.Contents().Keys), vs, |nodes|)
  {
    ghost var occupied := table.Contents().Keys;
    StartWithHead(head, nodes, FirstOfBucket(vs, occupied));
    InsertFirst(table, head.value, vs);
    SweepRest(head, table, nodes, vs, occupied);
  }

  /** delete_duplicate_using_hash: what stays is the head and the first of each bucket that
      was free before; afterwards the buckets of all values are occupied. */
  method DeleteDuplicateUsingHash(head: Node?, table: Table, ghost nodes: seq<Node>)
    requires IsList(head, nodes) && AllHashable(Values(nodes)) && table.Valid()
    modifies nodes`next, table`sizeUsed, table.items
    ensures IsList(head, Select(nodes, FirstOfBucket(Values(nodes), old(table.Contents().Keys))))
    ensures Recorded(table, old(table.Contents().Keys), Values(nodes), |nodes|)
  {
    ghost var vs := Values(nodes);
    if head == null {
      assert table.Contents().Keys == table.Contents().Keys + BucketsOf(vs, 0);
    } else {
      SweepFrom(head, table, nodes, vs);
    }
    assert Values(nodes) == vs;
  }

  /** init_table followed by delete_duplicate_using_hash, as main runs them: exactly the
      first node of each residue class stays. */
  method DeleteDuplicateFromFreshTable(head: Node?, ghost nodes: seq<Node>) returns (table: Table)
    requires IsList(head, nodes) && AllHashable(Values(nodes))
    modifies nodes`next
    ensures IsList(head, Select(nodes, FirstOfBucket(Values(nodes), {})))
    ensures BelowTwenty(Values(nodes)) ==> IsList(head, Select(nodes, FirstOccurrence(Values(nodes))))
    ensures fresh(table) && fresh(table.items) && Recorded(table, {}, Values(nodes), |nodes|)
  {
    table := new Table();
    ghost var occupied := table.Contents().Keys;
    assert occupied == {};
    DeleteDuplicateUsingHash(head, table, nodes);
    if BelowTwenty(Values(nodes)) { SmallValuesAreExact(Values(nodes)); }
  }
}
