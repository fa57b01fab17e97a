/**
Cycle finding with two pointers, and measuring the cycle that was found.

Any finite `next` graph seen from one node is a rho: a path of distinct nodes whose last
link is either null or goes back to an earlier position of the path.
*/
module Floyd {
  import opened LinkedList

  // ---------------------------------------------------------------- the graph

  /** `S` holds every node that can be reached from `p`. */
  ghost predicate Closed(p: Node?, S: set<Node>)
    reads S`next
  {
    && (p != null ==> p in S)
    && forall n :: n in S && n.next != null ==> n.next in S
  }

  /** Where `k` applications of `next` lead; null is final. */
  ghost function Walk(p: Node?, k: nat, S: set<Node>): (q: Node?)
    requires Closed(p, S)
    reads S`next
    ensures q != null ==> q in S
  {
    if k == 0 then p
    else
      var q := Walk(p, k - 1, S);
      if q == null then null else q.next
  }

  /** The list never ends. */
  ghost predicate Cyclic(p: Node?, S: set<Node>)
    requires Closed(p, S)
    reads S`next
  {
    forall k: nat :: Walk(p, k, S) != null
  }

  /** The node `k` links from `p` comes back `d` links later. */
  ghost predicate Returns(p: Node?, k: nat, d: nat, S: set<Node>)
    requires Closed(p, S)
    reads S`next
  {
    Walk(p, k, S) != null && Walk(p, k + d, S) == Walk(p, k, S)
  }

  /** `len` is the length of the cycle `p` runs into: some node comes back after `len`
      links, and no node ever comes back after fewer. */
  ghost predicate IsCycleLength(p: Node?, len: nat, S: set<Node>)
    requires Closed(p, S)
    reads S`next
  {
    && len > 0
    && (exists k: nat :: Returns(p, k, len, S))
    && (forall k: nat, d: nat :: 0 < d < len ==> !Returns(p, k, d, S))
  }

  /** The nodes that `p` reaches. */
  ghost function Reachable(p: Node?, S: set<Node>): (r: set<Node>)
    requires Closed(p, S)
    reads S`next
  {
    set n | n in S && exists k: nat :: Walk(p, k, S) == n
  }

  // ---------------------------------------------------------------- the rho shape

  /** `path` lists distinct nodes from `head` on; the link out of the last one goes to
      `path[entry]`, or is null when `entry == |path|`. */
  ghost predicate IsRho(head: Node?, path: seq<Node>, entry: nat)
    reads path`next
  {
    && entry <= |path|
    && head == Link(path, 0)
    && (forall i {:trigger path[i].next} :: 0 <= i < |path| ==>
          path[i].next == Link(path, if i + 1 < |path| then i + 1 else entry))
    && Distinct(path)
  }

  /** The index on the path after `k` links, `n` standing for null. */
  ghost function Position(n: nat, entry: nat, k: nat): (i: nat)
    requires entry <= n
    ensures i <= n && (entry < n ==> i < n)
  {
    if k == 0 then 0
    else
      var i := Position(n, entry, k - 1);
      if i == n then n else if i + 1 < n then i + 1 else entry
  }

  lemma ModUnique(x: int, q: int, r: int, m: int)
    requires m > 0 && 0 <= r < m && x == q * m + r
    ensures x % m == r
  {
    var d := q - x / m;
    assert d * m == x % m - r by { assert x == (x / m) * m + x % m; }
    assert d >= 1 ==> d * m >= m;
    assert d <= -1 ==> d * m <= -m;
  }

  /** Congruence is divisibility of the difference. */
  lemma ModEqual(a: int, b: int, m: int)
    requires m > 0
    ensures a % m == b % m <==> (a - b) % m == 0
  {
    assert a == (a / m) * m + a % m && b == (b / m) * m + b % m;
    if a % m == b % m {
      assert a - b == (a / m - b / m) * m + 0;
      ModUnique(a - b, a / m - b / m, 0, m);
    }
    if (a - b) % m == 0 {
      var q := (a - b) / m;
      assert a == (q + b / m) * m + b % m;
      ModUnique(a, q + b / m, b % m, m);
    }
  }

  /** The position in closed form: straight ahead, then round and round the cycle. */
  lemma {:induction false} PositionFormula(n: nat, entry: nat, k: nat)
    requires entry <= n
    ensures Position(n, entry, k) ==
            if k < n then k else if entry < n then entry + (k - entry) % (n - entry) else n
  {
    if k > 0 {
      PositionFormula(n, entry, k - 1);
      if k >= n && entry < n {
        var m, x := n - entry, k - 1 - entry;
        if k - 1 < n { ModUnique(x, 0, x, m); }
        ModStep(x, m);
      }
    }
  }

  lemma ModStep(x: nat, m: nat)
    requires m > 0
    ensures (x + 1) % m == if x % m + 1 < m then x % m + 1 else 0
  {
    assert x + 1 == (x / m) * m + (x % m + 1);
    if x % m + 1 < m {
      ModUnique(x + 1, x / m, x % m + 1, m);
    } else {
      assert x + 1 == (x / m + 1) * m + 0;
      ModUnique(x + 1, x / m + 1, 0, m);
    }
  }

  /** Two positions past the entry agree exactly when their distance is a multiple of the
      cycle length. */
  lemma PositionsMeet(n: nat, entry: nat, k: nat, l: nat)
    requires entry < n && entry <= k && entry <= l
    ensures Position(n, entry, k) == Position(n, entry, l) <==> (l - k) % (n - entry) == 0
  {
    var m := n - entry;
    PositionFormula(n, entry, k);
    PositionFormula(n, entry, l);
    ModEqual(l - entry, k - entry, m);
    if k < n { ModUnique(k - entry, 0, k - entry, m); }
    if l < n { ModUnique(l - entry, 0, l - entry, m); }
  }

  /** Before the entry, a position is never taken again. */
  lemma TailIsVisitedOnce(n: nat, entry: nat, k: nat, l: nat)
    requires entry <= n && k < entry && k < l
    ensures Position(n, entry, k) != Position(n, entry, l)
  {
    PositionFormula(n, entry, k);
    PositionFormula(n, entry, l);
  }

  /** Past the entry, every position comes back after one lap. */
  lemma OneLap(n: nat, entry: nat, k: nat)
    requires entry < n && entry <= k
    ensures Position(n, entry, k + (n - entry)) == Position(n, entry, k)
  {
    var m := n - entry;
    assert (k + m) - k == 1 * m + 0;
    ModUnique((k + m) - k, 1, 0, m);
    PositionsMeet(n, entry, k, k + m);
  }

  /** No position comes back in less than a lap. */
  lemma NoShorterLap(n: nat, entry: nat, k: nat, d: nat)
    requires entry < n && 0 < d < n - entry
    ensures Position(n, entry, k) != Position(n, entry, k + d)
  {
    if entry <= k {
      ModUnique((k + d) - k, 0, d, n - entry);
      PositionsMeet(n, entry, k, k + d);
    } else {
      TailIsVisitedOnce(n, entry, k, k + d);
    }
  }

  lemma {:induction false} WalkFollowsRho(head: Node?, path: seq<Node>, entry: nat, k: nat, S: set<Node>)
    requires Closed(head, S) && IsRho(head, path, entry)
    ensures Walk(head, k, S) == Link(path, Position(|path|, entry, k))
  {
    if k > 0 {
      WalkFollowsRho(head, path, entry, k - 1, S);
    }
  }

  /** Every finite graph is a rho as seen from any of its nodes. */
  lemma RhoExists(head: Node?, S: set<Node>) returns (path: seq<Node>, entry: nat)
    requires Closed(head, S)
    ensures IsRho(head, path, entry)
  {
    path := [];
    var p := head;
    while p != null && p !in path
      invariant p != null ==> p in S
      invariant forall n :: n in path ==> n in S
      invariant Distinct(path)
      invariant head == if path == [] then p else path[0]
      invariant forall i :: 0 <= i < |path| - 1 ==> path[i].next == path[i + 1]
      invariant path != [] ==> path[|path| - 1].next == p
      decreases S - set n | n in path
    {
      ghost var before := set n | n in path;
      path := path + [p];
      assert (set n | n in path) == before + {p};
      p := p.next;
    }
    if p == null { entry := |path|; } else { entry :| 0 <= entry < |path| && path[entry] == p; }
  }

  /** Position and reachability agree, so the path has as many nodes as are reachable. */
  lemma RhoIsReachable(head: Node?, path: seq<Node>, entry: nat, S: set<Node>)
    requires Closed(head, S) && IsRho(head, path, entry)
    ensures Reachable(head, S) == set n | n in path
    ensures |Reachable(head, S)| == |path|
  {
    forall i | 0 <= i < |path| ensures path[i] in Reachable(head, S) {
      WalkFollowsRho(head, path, entry, i, S);
      PositionFormula(|path|, entry, i);
      assert Walk(head, i, S) == path[i];
    }
    forall n | n in Reachable(head, S) ensures n in path {
      var k: nat :| Walk(head, k, S) == n;
      WalkFollowsRho(head, path, entry, k, S);
    }
    DistinctCount(path);
  }

  lemma {:induction false} DistinctCount(s: seq<Node>)
    requires Distinct(s)
    ensures |set n | n in s| == |s|
  {
    if s != [] {
      var front, last := s[..|s| - 1], s[|s| - 1];
      DistinctCount(front);
      assert (set n | n in s) == (set n | n in front) + {last};
    }
  }

  /** Nodes of the walk and positions of the rho are in one-to-one correspondence. */
  lemma SameNodeSamePosition(head: Node?, path: seq<Node>, entry: nat, k: nat, l: nat, S: set<Node>)
    requires Closed(head, S) && IsRho(head, path, entry)
    ensures Walk(head, k, S) == null <==> Position(|path|, entry, k) == |path|
    ensures Walk(head, k, S) == Walk(head, l, S) <==>
            Position(|path|, entry, k) == Position(|path|, entry, l)
  {
    WalkFollowsRho(head, path, entry, k, S);
    WalkFollowsRho(head, path, entry, l, S);
  }

  lemma RhoDecidesCyclic(head: Node?, path: seq<Node>, entry: nat, S: set<Node>)
    requires Closed(head, S) && IsRho(head, path, entry)
    ensures Cyclic(head, S) <==> entry < |path|
  {
    var n := |path|;
    PositionFormula(n, entry, n);
    forall k: nat ensures Walk(head, k, S) == null <==> Position(n, entry, k) == n {
      SameNodeSamePosition(head, path, entry, k, k, S);
    }
    assert entry == n ==> Walk(head, n, S) == null;
  }

  lemma RhoReturns(head: Node?, path: seq<Node>, entry: nat, k: nat, d: nat, S: set<Node>)
    requires Closed(head, S) && IsRho(head, path, entry) && entry < |path|
    ensures Returns(head, k, d, S) <==> Position(|path|, entry, k) == Position(|path|, entry, k + d)
  {
    SameNodeSamePosition(head, path, entry, k, k + d, S);
  }

  /** The rho decides both questions the program answers. */
  lemma RhoAnswers(head: Node?, path: seq<Node>, entry: nat, S: set<Node>)
    requires Closed(head, S) && IsRho(head, path, entry)
    ensures Cyclic(head, S) <==> entry < |path|
    ensures entry < |path| ==> IsCycleLength(head, |path| - entry, S)
  {
    RhoDecidesCyclic(head, path, entry, S);
    var n := |path|;
    if entry < n {
      OneLap(n, entry, entry);
      RhoReturns(head, path, entry, entry, n - entry, S);
      forall k: nat, d: nat | 0 < d < n - entry ensures !Returns(head, k, d, S) {
        NoShorterLap(n, entry, k, d);
        RhoReturns(head, path, entry, k, d, S);
      }
    }
  }

  /** No node is revisited sooner than after one cycle length. */
  lemma CycleLengthIsLeast(head: Node?, a: nat, b: nat, S: set<Node>)
    requires Closed(head, S)
    requires IsCycleLength(head, a, S) && IsCycleLength(head, b, S)
    ensures a <= b
  {
    var k: nat :| Returns(head, k, b, S);
    assert !(0 < b < a);
  }

  /** The cycle length is a property of the graph, not of the path used to find it. */
  lemma CycleLengthIsUnique(head: Node?, a: nat, b: nat, S: set<Node>)
    requires Closed(head, S)
    requires IsCycleLength(head, a, S) && IsCycleLength(head, b, S)
    ensures a == b
  {
    CycleLengthIsLeast(head, a, b, S);
    CycleLengthIsLeast(head, b, a, S);
  }

  // ---------------------------------------------------------------- meeting

  /** The pointers, at `t` and `2t` links, coincide at the multiples of the cycle length
      that are past the entry, and nowhere else. */
  lemma MeetingPoints(n: nat, entry: nat, t: nat)
    requires entry < n && t > 0
    ensures Position(n, entry, t) == Position(n, entry, 2 * t) <==> entry <= t && t % (n - entry) == 0
  {
    if entry <= t {
      PositionsMeet(n, entry, t, 2 * t);
    } else {
      TailIsVisitedOnce(n, entry, t, 2 * t);
    }
  }

  /** A meeting point of the rho within its first `n` rounds. */
  lemma SomeMeetingPoint(n: nat, entry: nat) returns (t: nat)
    requires entry < n
    ensures 0 < t <= n && Position(n, entry, t) == Position(n, entry, 2 * t)
  {
    var m := n - entry;
    t := n - n % m;
    assert t == (n / m) * m + 0;
    ModUnique(t, n / m, 0, m);
    MeetingPoints(n, entry, t);
  }

  /** On a cyclic list the pointers meet within as many rounds as there are nodes. */
  lemma SomeMeeting(head: Node?, S: set<Node>) returns (t: nat)
    requires Closed(head, S) && Cyclic(head, S)
    ensures 0 < t <= |Reachable(head, S)| && Walk(head, t, S) == Walk(head, 2 * t, S)
  {
    var path, entry := RhoExists(head, S);
    assert entry < |path| by { RhoAnswers(head, path, entry, S); }
    RhoIsReachable(head, path, entry, S);
    t := SomeMeetingPoint(|path|, entry);
    WalkFollowsRho(head, path, entry, t, S);
    WalkFollowsRho(head, path, entry, 2 * t, S);
  }

  /** A position taken twice is past the entry, and is taken again one cycle later. */
  lemma RevisitedPosition(n: nat, entry: nat, k: nat, l: nat)
    requires entry <= n && k < l
    requires Position(n, entry, k) < n && Position(n, entry, k) == Position(n, entry, l)
    ensures entry < n && Position(n, entry, k + (n - entry)) == Position(n, entry, k)
  {
    PositionFormula(n, entry, k);
    assert entry <= k by {
      if k < entry { TailIsVisitedOnce(n, entry, k, l); }
    }
    OneLap(n, entry, k);
  }

  /** A node met again lies on the cycle, and comes round after exactly one cycle length. */
  lemma RevisitedIsOnCycle(head: Node?, k: nat, d: nat, S: set<Node>) returns (len: nat)
    requires Closed(head, S) && 0 < d && Returns(head, k, d, S)
    ensures Cyclic(head, S) && IsCycleLength(head, len, S)
    ensures Returns(head, k, len, S)
  {
    var path, entry := RhoExists(head, S);
    var n := |path|;
    SameNodeSamePosition(head, path, entry, k, k + d, S);
    RevisitedPosition(n, entry, k, k + d);
    len := n - entry;
    RhoReturns(head, path, entry, k, len, S);
    RhoAnswers(head, path, entry, S);
  }

  /** Null is never left again. */
  lemma {:induction false} NullIsFinal(head: Node?, k: nat, l: nat, S: set<Node>)
    requires Closed(head, S) && k <= l
    ensures Walk(head, k, S) == null ==> Walk(head, l, S) == null
    decreases l
  {
    if k < l { NullIsFinal(head, k, l - 1, S); }
  }

  /** The slow pointer is `t` links from the head, the fast one `2t`, and they have not met. */
  ghost predicate Racing(head: Node?, slow: Node?, fast: Node?, t: nat, S: set<Node>)
    requires Closed(head, S)
    reads S`next
  {
    && slow == Walk(head, t, S)
    && fast == Walk(head, 2 * t, S)
    && forall u: nat :: 0 < u <= t ==> Walk(head, u, S) != Walk(head, 2 * u, S)
  }

  /** A round that can be run keeps the distances, and is within the node count. */
  lemma RaceRound(head: Node?, slow: Node?, fast: Node, t: nat, S: set<Node>)
    requires Closed(head, S) && Racing(head, slow, fast, t, S) && fast.next != null
    ensures slow != null && slow.next == Walk(head, t + 1, S) && slow.next != null
    ensures fast.next.next == Walk(head, 2 * (t + 1), S)
    ensures t < |Reachable(head, S)|
  {
    assert Walk(head, 2 * t + 1, S) == fast.next;
    assert Walk(head, 2 * t + 2, S) == fast.next.next;
    NullIsFinal(head, t, 2 * t, S);
    NullIsFinal(head, t + 1, 2 * t + 1, S);
    RoundIsWithinReach(head, t, S);
  }

  lemma RoundIsWithinReach(head: Node?, t: nat, S: set<Node>)
    requires Closed(head, S) && Walk(head, t, S) != null
    requires forall u: nat :: 0 < u <= t ==> Walk(head, u, S) != Walk(head, 2 * u, S)
    ensures t < |Reachable(head, S)|
  {
    if Cyclic(head, S) {
      var meeting := SomeMeeting(head, S);
    } else {
      var path, entry := RhoExists(head, S);
      RhoAnswers(head, path, entry, S);
      RhoIsReachable(head, path, entry, S);
      WalkFollowsRho(head, path, entry, t, S);
      PositionFormula(|path|, entry, t);
    }
  }

  /** search_loop of the length-counting program. `steps` counts the rounds of the race. */
  method SearchLoop(head: Node?, ghost S: set<Node>) returns (r: int, ghost steps: nat)
    requires Closed(head, S)
    ensures head == null <==> r == -1
    ensures r == 0 <==> head != null && !Cyclic(head, S)
    ensures r > 0 <==> Cyclic(head, S)
    ensures r > 0 ==> IsCycleLength(head, r, S)
    ensures steps <= |Reachable(head, S)|
  {
    steps := 0;
    var fast, slow, found := head, head, false;
    if head == null {
      assert Walk(head, 0, S) == null;
      return -1, 0;
    }
    while fast != null && fast.next != null
      invariant Racing(head, slow, fast, steps, S)
      invariant steps <= |Reachable(head, S)| && !found
      decreases |Reachable(head, S)| - steps
    {
      RaceRound(head, slow, fast, steps, S);
      fast := fast.next.next;
      slow := slow.next;
      steps := steps + 1;
      if fast == slow {
        found := true;
        break;
      }
    }
    if !found {
      RaceLost(head, fast, 2 * steps, S);
      return 0, steps;
    }
    r := MeasureCycle(head, slow, steps, S);
  }

  /** The fast pointer stops only where the list ends. */
  lemma RaceLost(head: Node?, fast: Node?, k: nat, S: set<Node>)
    requires Closed(head, S) && fast == Walk(head, k, S)
    requires fast == null || fast.next == null
    ensures !Cyclic(head, S)
  {
    assert Walk(head, k, S) == null || Walk(head, k + 1, S) == null;
  }

  /** The second walk, from the meeting point round to itself. */
  method MeasureCycle(head: Node?, slow: Node, ghost t: nat, ghost S: set<Node>) returns (len: nat)
    requires Closed(head, S) && t > 0
    requires slow == Walk(head, t, S) && slow == Walk(head, 2 * t, S)
    ensures Cyclic(head, S) && IsCycleLength(head, len, S)
  {
    ghost var cycle := RevisitedIsOnCycle(head, t, t, S);
    var meet := slow;
    len := 1;
    while meet.next != slow
      invariant 1 <= len <= cycle
      invariant meet == Walk(head, t + len - 1, S)
      decreases cycle - len
    {
      assert Walk(head, t + len, S) == meet.next;
      meet := meet.next;
      len := len + 1;
    }
    assert Returns(head, t, len, S);
  }

  /** search_loop of the yes/no program. */
  method SearchLoopYesNo(head: Node?, ghost S: set<Node>) returns (r: int)
    requires Closed(head, S)
    ensures head == null <==> r == -1
    ensures r == 0 <==> head != null && !Cyclic(head, S)
    ensures r == 1 <==> Cyclic(head, S)
  {
    var fast, slow := head, head;
    if head == null {
      assert Walk(head, 0, S) == null;
      return -1;
    }
    ghost var t := 0;
    while fast != null && fast.next != null
      invariant Racing(head, slow, fast, t, S)
      decreases |Reachable(head, S)| - t
    {
      RaceRound(head, slow, fast, t, S);
      fast := fast.next.next;
      slow := slow.next;
      t := t + 1;
      if fast == slow {
        ghost var cycle := RevisitedIsOnCycle(head, t, t, S);
        return 1;
      }
    }
    RaceLost(head, fast, 2 * t, S);
    return 0;
  }

  // ---------------------------------------------------------------- building a loop

  /** append: the new node goes behind the last one, and with `makeLoop` its own link is
      pointed at the node three links behind the head. */
  method Append(head: Node?, newValue: int, makeLoop: bool, ghost nodes: seq<Node>)
    returns (newHead: Node, ghost newNode: Node)
    requires IsList(head, nodes)
    requires makeLoop ==> |nodes| == 0 || |nodes| >= 3
    modifies nodes`next
    ensures fresh(newNode) && newNode.value == newValue
    ensures makeLoop && head != null ==> IsRho(newHead, nodes + [newNode], 3)
    ensures !makeLoop || head == null ==> IsList(newHead, nodes + [newNode])
    ensures head != null ==> newHead == head
  {
    var node := new Node(newValue);
    newNode := node;
    if head == null { return node, node; }
    ListIsAcyclic(head, nodes);
    var current := head;
    ghost var i := 0;
    while current.next != null
      invariant i < |nodes| && current == nodes[i]
      decreases |nodes| - i
    {
      current := current.next;
      i := i + 1;
    }
    current.next := node;
    if makeLoop {
      node.next := head.next.next.next;
    }
    newHead := head;
  }

  lemma RhoIsClosed(head: Node?, path: seq<Node>, entry: nat, S: set<Node>)
    requires IsRho(head, path, entry) && S == set n | n in path
    ensures Closed(head, S)
  {
  }

  lemma RhoCycleLength(head: Node?, path: seq<Node>, entry: nat, r: int, S: set<Node>)
    requires Closed(head, S) && IsRho(head, path, entry) && entry < |path|
    requires r > 0 <==> Cyclic(head, S)
    requires r > 0 ==> IsCycleLength(head, r, S)
    ensures r == |path| - entry
  {
    RhoAnswers(head, path, entry, S);
    CycleLengthIsUnique(head, r, |path| - entry, S);
  }

  /** Building a loop and searching it: the answer is two less than the list was long. */
  method BuildThenSearch(head: Node?, newValue: int, ghost nodes: seq<Node>) returns (r: int)
    requires IsList(head, nodes) && |nodes| >= 3
    modifies nodes`next
    ensures r == |nodes| - 2
  {
    var newHead, newNode := Append(head, newValue, true, nodes);
    ghost var path := nodes + [newNode];
    ghost var S := set n | n in path;
    RhoIsClosed(newHead, path, 3, S);
    ghost var rounds;
    r, rounds := SearchLoop(newHead, S);
    RhoCycleLength(newHead, path, 3, r, S);
  }
}
