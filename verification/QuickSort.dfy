/**
Quick sort with the first record as pivot. The scan to the right has no bound of its own, so
it can run off the end of the array. The model stops there and reports it as `overrun`.
*/
module QuickSort {
  import opened SortSpec

  // ------------------------------------------------------------ where a run leads

  /** What a partition of `t` by the pivot `p` leaves behind the cut. From the outside in: a
      key not above the pivot at the left end drops out, one above it at the right end stays,
      and otherwise the first record takes the place of the last. */
  function RightPart(t: seq<Record>, p: int): (r: seq<Record>)
    ensures |r| <= |t|
    ensures t != [] && t[0].key <= p ==> |r| < |t|
  {
    if t == [] then []
    else
      var n := |t| - 1;
      if t[0].key <= p then RightPart(t[1..], p)
      else if t[n].key > p then RightPart(t[..n], p) + [t[n]]
      else RightPart(t[1..n], p) + [t[0]]
  }

  /** It holds records of `t` with keys above the pivot. */
  lemma {:induction false} RightPartMembers(t: seq<Record>, p: int)
    ensures forall x :: x in RightPart(t, p) ==> x in t && x.key > p
    decreases |t|
  {
    if t != [] {
      var n := |t| - 1;
      RightPartMembers(if t[0].key <= p then t[1..] else if t[n].key > p then t[..n] else t[1..n], p);
    }
  }

  predicate NoneAbove(s: seq<Record>, k: int) {
    forall i :: 0 <= i < |s| ==> s[i].key <= k
  }

  /** Whether quick_sort on a segment holding `t`, with the cells `behind` it up to the end of
      the array, reads outside the array: it does when some right part starts with a key that
      nothing from there on exceeds. */
  predicate RunsOff(t: seq<Record>, behind: seq<Record>)
    decreases |t|
  {
    && |t| >= 2
    && (|| (NoneAbove(t, t[0].key) && NoneAbove(behind, t[0].key))
        || RunsOff(RightPart(t, t[0].key), behind))
  }

  lemma {:induction false} DropSmall(t: seq<Record>, u: seq<Record>, p: int)
    requires NoneAbove(t, p)
    ensures RightPart(t + u, p) == RightPart(u, p)
  {
    if t == [] {
      assert t + u == u;
    } else {
      assert (t + u)[1..] == t[1..] + u;
      DropSmall(t[1..], u, p);
    }
  }

  lemma {:induction false} KeepLast(t: seq<Record>, x: Record, p: int)
    requires x.key > p
    ensures RightPart(t + [x], p) == RightPart(t, p) + [x]
  {
    if t == [] || t[0].key > p {
      assert (t + [x])[..|t|] == t;
    } else {
      assert (t + [x])[1..] == t[1..] + [x];
      KeepLast(t[1..], x, p);
    }
  }

  lemma {:induction false} KeepLarge(t: seq<Record>, u: seq<Record>, p: int)
    requires forall i :: 0 <= i < |u| ==> u[i].key > p
    ensures RightPart(t + u, p) == RightPart(t, p) + u
  {
    if u == [] {
      assert t + u == t;
    } else {
      var n := |u| - 1;
      assert t + u == (t + u[..n]) + [u[n]];
      KeepLarge(t, u[..n], p);
      KeepLast(t + u[..n], u[n], p);
    }
  }

  lemma KeepLargeBefore(t: seq<Record>, u: seq<Record>, v: seq<Record>, p: int)
    requires forall i :: 0 <= i < |u| ==> u[i].key > p
    ensures RightPart(t + u, p) + v == RightPart(t, p) + (u + v)
  {
    KeepLarge(t, u, p);
  }

  /** The exchange of the program. */
  lemma ExchangeEnds(x: Record, t: seq<Record>, y: Record, p: int)
    requires y.key <= p < x.key
    ensures RightPart([x] + t + [y], p) == RightPart([y] + t + [x], p)
  {
    assert ([x] + t + [y])[1..|t| + 1] == t;
    assert ([y] + t + [x])[1..] == t + [x];
    KeepLast(t, x, p);
  }

  // ------------------------------------------------------------ the partition

  /** The inner loop that looks for a greater key to the right. `stop == a.Length` is the
      attempt to read the cell behind the array. */
  method ScanUp(a: array<Record>, i: nat, pivot: int) returns (stop: nat)
    requires i <= a.Length
    ensures i <= stop <= a.Length
    ensures forall m :: i <= m < stop ==> a[m].key <= pivot
    ensures stop < a.Length ==> a[stop].key > pivot
  {
    stop := i;
    while stop < a.Length && a[stop].key <= pivot
      invariant i <= stop <= a.Length
      invariant forall m :: i <= m < stop ==> a[m].key <= pivot
    {
      stop := stop + 1;
    }
  }

  /** The inner loop that looks for a key not above the pivot to the left. */
  method ScanDown(a: array<Record>, j: nat, pivot: int, ghost limit: nat) returns (stop: nat)
    requires limit <= j < a.Length && a[limit].key <= pivot
    ensures limit <= stop <= j && a[stop].key <= pivot
    ensures forall m :: stop < m <= j ==> a[m].key > pivot
  {
    stop := j;
    while a[stop].key > pivot
      invariant limit <= stop <= j
      invariant forall m :: stop < m <= j ==> a[m].key > pivot
      decreases stop
    {
      stop := stop - 1;
    }
  }

  /** Keys up to `i` are at most the pivot, keys behind `j` are above it. */
  ghost predicate Swept(s: seq<Record>, left: nat, right: nat, i: nat, j: nat, pivot: int) {
    && left <= j <= right < |s| && left <= i <= |s|
    && (forall m :: left <= m < i ==> s[m].key <= pivot)
    && (forall m :: j < m <= right ==> s[m].key > pivot)
  }

  /** `s` is a rearrangement of `s0` inside `[x..z)`. */
  ghost predicate Rearranged(s0: seq<Record>, s: seq<Record>, x: nat, z: nat) {
    SameOutside(s0, s, x, z) && multiset(s) == multiset(s0)
  }

  lemma SwapRearranges(s0: seq<Record>, s: seq<Record>, x: nat, z: nat, i: nat, j: nat)
    requires Rearranged(s0, s, x, z) && x <= i < z && x <= j < z
    ensures Rearranged(s0, s[i := s[j]][j := s[i]], x, z)
  {
  }

  /** What will stand behind the cut in the end: what the part between the sweeps has to give,
      and what is already there. */
  ghost function Outlook(s: seq<Record>, right: nat, i: nat, j: nat, p: int): seq<Record>
    requires j <= right < |s|
  {
    RightPart(s[if i <= j then i else j + 1..j + 1], p) + s[j + 1..right + 1]
  }

  lemma ScanUpKeeps(s: seq<Record>, right: nat, i0: nat, i: nat, j: nat, p: int)
    requires i0 <= i && i0 <= j <= right < |s| && forall m :: i0 <= m < i && m < |s| ==> s[m].key <= p
    ensures Outlook(s, right, i, j, p) == Outlook(s, right, i0, j, p)
  {
    var h := if i <= j then i else j + 1;
    assert s[i0..j + 1] == s[i0..h] + s[h..j + 1];
    DropSmall(s[i0..h], s[h..j + 1], p);
  }

  lemma ScanDownKeeps(s: seq<Record>, right: nat, i: nat, j: nat, j0: nat, p: int)
    requires i <= j + 1 && j <= j0 <= right < |s| && forall m :: j < m <= j0 ==> s[m].key > p
    ensures Outlook(s, right, i, j, p) == Outlook(s, right, i, j0, p)
  {
    var x, u, v := s[i..j + 1], s[j + 1..j0 + 1], s[j0 + 1..right + 1];
    assert s[i..j0 + 1] == x + u && s[j + 1..right + 1] == u + v;
    KeepLargeBefore(x, u, v, p);
  }

  lemma ExchangeKeeps(s: seq<Record>, right: nat, i: nat, j: nat, p: int)
    requires i < j <= right < |s| && s[j].key <= p < s[i].key
    ensures Outlook(s[i := s[j]][j := s[i]], right, i, j, p) == Outlook(s, right, i, j, p)
  {
    var s' := s[i := s[j]][j := s[i]];
    assert s[i..j + 1] == [s[i]] + s[i + 1..j] + [s[j]];
    assert s'[i..j + 1] == [s[j]] + s[i + 1..j] + [s[i]];
    ExchangeEnds(s[i], s[i + 1..j], s[j], p);
    assert s'[j + 1..right + 1] == s[j + 1..right + 1];
  }

  /** Both sweeps of a round. */
  lemma SweepsKeep(s: seq<Record>, right: nat, i0: nat, i: nat, j: nat, j0: nat, p: int)
    requires i0 < i < |s| && i0 <= j0 && j <= j0 <= right < |s|
    requires forall m :: i0 <= m < i ==> s[m].key <= p
    requires forall m :: j < m <= j0 ==> s[m].key > p
    ensures Outlook(s, right, i, j, p) == Outlook(s, right, i0, j0, p)
  {
    ScanUpKeeps(s, right, i0, i, j0, p);
    if i <= j0 {
      assert s[i - 1].key <= p;
      ScanDownKeeps(s, right, i, j, j0, p);
    } else {
      assert s[j0].key <= p;
    }
  }

  /** The exchange in the middle of a round. */
  method Exchange(a: array<Record>, left: nat, right: nat, i: nat, j: nat, pivot: int, ghost s0: seq<Record>)
    requires left <= i < j && Swept(a[..], left, right, i, j, pivot) && a[j].key <= pivot < a[i].key
    requires Rearranged(s0, a[..], left, right + 1)
    modifies a
    ensures a[..] == old(a[..])[i := old(a[j])][j := old(a[i])]
    ensures Swept(a[..], left, right, i, j, pivot) && Rearranged(s0, a[..], left, right + 1)
    ensures Outlook(a[..], right, i, j, pivot) == Outlook(old(a[..]), right, i, j, pivot)
  {
    ExchangeKeeps(a[..], right, i, j, pivot);
    SwapRearranges(s0, a[..], left, right + 1, i, j);
    a[i], a[j] := a[j], a[i];
  }

  /** One round: a sweep from either side, and an exchange if they have not crossed. */
  method Round(a: array<Record>, left: nat, right: nat, i0: nat, j0: nat, pivot: int, ghost s0: seq<Record>)
    returns (i: nat, j: nat)
    requires left <= i0 < j0 < a.Length && a[left].key <= pivot && a[i0].key <= pivot
    requires Swept(a[..], left, right, i0, j0, pivot)
    requires Rearranged(s0, a[..], left, right + 1)
    modifies a
    ensures i0 < i <= a.Length && j <= j0 && a[left] == old(a[left])
    ensures forall m :: i0 <= m < i ==> old(a[m]).key <= pivot
    ensures i == a.Length ==> a[..] == old(a[..])
    ensures i < a.Length ==> old(a[i]).key > pivot
    ensures i < a.Length ==> Swept(a[..], left, right, i, j, pivot)
    ensures i < a.Length ==> Rearranged(s0, a[..], left, right + 1)
    ensures i < j ==> a[i].key <= pivot < a[j].key
    ensures i < a.Length && j <= i ==> j < i && a[j].key <= pivot
    ensures i < a.Length ==> Outlook(a[..], right, i, j, pivot) == Outlook(old(a[..]), right, i0, j0, pivot)
  {
    i := ScanUp(a, i0, pivot);
    j := j0;
    if i < a.Length {
      j := ScanDown(a, j0, pivot, left);
      SweepsKeep(a[..], right, i0, i, j, j0, pivot);
      if i < j {
        Exchange(a, left, right, i, j, pivot, s0);
      }
    }
  }

  /** The sweeps crossed: `j` is the last key not above the pivot. */
  ghost predicate Crossed(s: seq<Record>, left: nat, right: nat, j: nat, pivot: int) {
    && left <= j <= right < |s|
    && (forall m :: left <= m <= j ==> s[m].key <= pivot)
    && (forall m :: j < m <= right ==> s[m].key > pivot)
  }

  /** `first` is the first cell behind `left` with a key above that of `left`. */
  ghost predicate FirstAbove(s: seq<Record>, left: nat, first: nat) {
    && left < first < |s| && s[first].key > s[left].key
    && forall m :: left <= m < first ==> s[m].key <= s[left].key
  }

  ghost predicate PivotIsGreatest(s: seq<Record>, left: nat, right: nat)
    requires left <= right < |s|
  {
    forall m :: left <= m <= right ==> s[m].key <= s[left].key
  }

  /** The outer loop. `first` is the last cell read by the first sweep to the right, `later`
      the last one read by any other sweep to the right. */
  method Sweeps(a: array<Record>, left: nat, right: nat)
    returns (overrun: bool, j: nat, ghost first: nat, ghost later: nat)
    requires left < right < a.Length
    modifies a
    ensures overrun ==> a[..] == old(a[..]) && PivotIsGreatest(old(a[..]), left, a.Length - 1)
    ensures !overrun ==> Crossed(a[..], left, right, j, a[left].key) && a[left] == old(a[left])
    ensures !overrun ==> Rearranged(old(a[..]), a[..], left, right + 1)
    ensures !overrun ==> a[j + 1..right + 1] == RightPart(old(a[..])[left..right + 1], a[left].key)
    ensures !overrun ==> FirstAbove(old(a[..]), left, first) && later <= right
  {
    ghost var s0, sweeps := a[..], 0;
    var pivot := a[left].key;
    var i := left;
    j := right;
    first, later := left, left;
    while i < j
      invariant left <= i < a.Length && Swept(a[..], left, right, i, j, pivot)
      invariant a[left] == s0[left] && Rearranged(s0, a[..], left, right + 1)
      invariant Outlook(a[..], right, i, j, pivot) == RightPart(s0[left..right + 1], pivot)
      invariant sweeps == 0 ==> i == left && j == right && a[..] == s0
      invariant sweeps > 0 ==> FirstAbove(s0, left, first)
      invariant sweeps > 0 && i < j ==> a[i].key <= pivot < a[j].key
      invariant j <= i ==> j < i && a[j].key <= pivot
      invariant later <= right
      decreases j as int - i
    {
      i, j := Round(a, left, right, i, j, pivot, s0);
      if i == a.Length { return true, j, first, later; }
      if sweeps == 0 { first := i; } else { later := i; }
      sweeps := sweeps + 1;
    }
    overrun := false;
  }

  /** Keys in front of the cut are at most its key, keys behind it above. */
  ghost predicate CutAt(s: seq<Record>, x: nat, c: nat, z: nat) {
    && x <= c < z <= |s|
    && (forall m :: x <= m < c ==> s[m].key <= s[c].key)
    && (forall m :: c < m < z ==> s[m].key > s[c].key)
  }

  /** `s` is `s0` cut at `c` in the segment `[x..z)`, the pivot from `x` now standing at `c`. */
  ghost predicate CutFrom(s0: seq<Record>, s: seq<Record>, x: nat, c: nat, z: nat) {
    && Rearranged(s0, s, x, z) && CutAt(s, x, c, z)
    && s[c] == s0[x] && s[c + 1..z] == RightPart(s0[x..z], s[c].key)
  }

  /** The last exchange puts the pivot in its place. */
  lemma PivotInPlace(s0: seq<Record>, s: seq<Record>, left: nat, right: nat, j: nat)
    requires left <= right < |s| && Rearranged(s0, s, left, right + 1) && s[left] == s0[left]
    requires Crossed(s, left, right, j, s[left].key)
    requires s[j + 1..right + 1] == RightPart(s0[left..right + 1], s[left].key)
    ensures CutFrom(s0, s[j := s[left]][left := s[j]], left, j, right + 1)
  {
    SwapRearranges(s0, s, left, right + 1, j, left);
  }

  /** The first sweep leaves the segment exactly when no key in it is above the pivot. */
  lemma FirstSweepLeaves(s: seq<Record>, left: nat, right: nat, first: nat)
    requires left <= right < |s| && FirstAbove(s, left, first)
    ensures first > right <==> PivotIsGreatest(s, left, right)
    ensures !PivotIsGreatest(s, left, |s| - 1)
  {
  }

  /** The cut is the pivot's final place. The first sweep reads on to the first greater key,
      wherever that is, and runs off the array if and only if there is none; all other reads
      are inside the segment. */
  method Partition(a: array<Record>, left: nat, right: nat)
    returns (overrun: bool, cut: nat, ghost first: nat, ghost later: nat)
    requires left < right < a.Length
    modifies a
    ensures overrun <==> PivotIsGreatest(old(a[..]), left, a.Length - 1)
    ensures overrun ==> a[..] == old(a[..])
    ensures !overrun ==> CutFrom(old(a[..]), a[..], left, cut, right + 1)
    ensures !overrun ==> FirstAbove(old(a[..]), left, first) && later <= right
    ensures !overrun ==> (first > right <==> PivotIsGreatest(old(a[..]), left, right))
  {
    ghost var s0 := a[..];
    overrun, cut, first, later := Sweeps(a, left, right);
    if !overrun {
      PivotInPlace(s0, a[..], left, right, cut);
      a[cut], a[left] := a[left], a[cut];
      FirstSweepLeaves(s0, left, right, first);
    }
  }

  // ------------------------------------------------------------ the recursion

  lemma Cancel(m: multiset<Record>, n: multiset<Record>, c: multiset<Record>)
    requires m + c == n + c
    ensures m == n
  {
    assert m == (m + c) - c && n == (n + c) - c;
  }

  lemma Parts(p: seq<Record>, s: seq<Record>, q: seq<Record>)
    ensures multiset(p + s + q) == multiset(s) + (multiset(p) + multiset(q))
  {
  }

  lemma RearrangedSegment(s0: seq<Record>, s: seq<Record>, x: nat, z: nat)
    requires Rearranged(s0, s, x, z)
    ensures multiset(s[x..z]) == multiset(s0[x..z])
  {
    var p, q := s0[..x], s0[z..];
    assert s == p + s[x..z] + q && s0 == p + s0[x..z] + q;
    Parts(p, s[x..z], q);
    Parts(p, s0[x..z], q);
    Cancel(multiset(s[x..z]), multiset(s0[x..z]), multiset(p) + multiset(q));
  }

  /** Every record of a rearranged segment was in the segment before. */
  lemma RearrangedMember(s0: seq<Record>, s: seq<Record>, x: nat, z: nat, p: nat) returns (q: nat)
    requires Rearranged(s0, s, x, z) && x <= p < z
    ensures x <= q < z && s[p] == s0[q]
  {
    RearrangedSegment(s0, s, x, z);
    assert s[x..z][p - x] in multiset(s[x..z]);
    assert s[p] in s0[x..z];
    var i :| 0 <= i < z - x && s0[x..z][i] == s[p];
    q := x + i;
  }

  ghost predicate SortedSegment(s: seq<Record>, x: nat, z: nat)
    requires z <= |s|
  {
    forall p, q :: x <= p < q < z ==> s[p].key <= s[q].key
  }

  lemma RearrangedCompose(s0: seq<Record>, s1: seq<Record>, s2: seq<Record>, x: nat, z: nat, x': nat, z': nat)
    requires Rearranged(s0, s1, x, z) && Rearranged(s1, s2, x', z') && x <= x' && z' <= z
    ensures Rearranged(s0, s2, x, z)
  {
  }

  /** Cut, sorted below the cut, sorted above the cut: sorted. */
  lemma CutToWhole(s1: seq<Record>, s2: seq<Record>, s3: seq<Record>, x: nat, c: nat, z: nat)
    requires CutAt(s1, x, c, z)
    requires Rearranged(s1, s2, x, c) && SortedSegment(s2, x, c)
    requires Rearranged(s2, s3, c + 1, z) && SortedSegment(s3, c + 1, z)
    ensures SortedSegment(s3, x, z)
  {
    forall p | x <= p < c ensures s3[p].key <= s3[c].key {
      var q := RearrangedMember(s1, s2, x, c, p);
    }
    forall p | c < p < z ensures s3[c].key < s3[p].key {
      var q := RearrangedMember(s2, s3, c + 1, z, p);
    }
  }

  /** The whole recursion step, on the four states of the array. */
  lemma QuickStep(s0: seq<Record>, s1: seq<Record>, s2: seq<Record>, s3: seq<Record>, x: nat, c: nat, z: nat,
                  done: bool)
    requires CutFrom(s0, s1, x, c, z)
    requires Rearranged(s1, s2, x, c) && SortedSegment(s2, x, c)
    requires Rearranged(s2, s3, c + 1, z) && (done ==> SortedSegment(s3, c + 1, z))
    ensures Rearranged(s0, s3, x, z) && (done ==> SortedSegment(s3, x, z))
  {
    if done { CutToWhole(s1, s2, s3, x, c, z); }
    RearrangedCompose(s0, s1, s2, x, z, x, c);
    RearrangedCompose(s0, s2, s3, x, z, c + 1, z);
  }

  // ------------------------------------------------------------ the program

  /** What a run of quick_sort on `[left..right]` does: it reads outside the array if and only
      if RunsOff says so, and otherwise it sorts. */
  ghost predicate Ran(s0: seq<Record>, s: seq<Record>, left: int, right: int, overrun: bool) {
    && (left > right ==> s == s0 && !overrun)
    && (left <= right ==>
          && 0 <= left && right < |s| && Rearranged(s0, s, left, right + 1)
          && (overrun <==> RunsOff(s0[left..right + 1], s0[right + 1..]))
          && (!overrun ==> SortedSegment(s, left, right + 1)))
  }

  lemma NothingToSort(s: seq<Record>, left: int, right: int)
    requires left >= right && (left <= right ==> 0 <= left && right < |s|)
    ensures Ran(s, s, left, right, false)
  {
  }

  /** The first cut reads outside when RunsOff says so at once. */
  lemma FirstCut(s: seq<Record>, left: nat, right: nat)
    requires left < right < |s|
    ensures var t, behind := s[left..right + 1], s[right + 1..];
            PivotIsGreatest(s, left, |s| - 1) <==> NoneAbove(t, t[0].key) && NoneAbove(behind, t[0].key)
  {
    var t, behind := s[left..right + 1], s[right + 1..];
    if NoneAbove(t, t[0].key) && NoneAbove(behind, t[0].key) {
      forall m | left <= m < |s| ensures s[m].key <= s[left].key {
        if m <= right { assert s[m] == t[m - left]; } else { assert s[m] == behind[m - right - 1]; }
      }
    }
  }

  lemma RanOffAtOnce(s: seq<Record>, left: nat, right: nat)
    requires left < right < |s| && PivotIsGreatest(s, left, |s| - 1)
    ensures Ran(s, s, left, right, true)
  {
    FirstCut(s, left, right);
  }

  /** With a key behind it above all its own, a segment does not run off. */
  lemma {:induction false} GuardedBehind(t: seq<Record>, behind: seq<Record>, b: nat)
    requires b < |behind| && forall x :: x in t ==> x.key < behind[b].key
    ensures !RunsOff(t, behind)
    decreases |t|
  {
    if |t| >= 2 {
      assert t[0] in t;
      RightPartMembers(t, t[0].key);
      GuardedBehind(RightPart(t, t[0].key), behind, b);
    }
  }

  /** After a cut that stayed inside, the left part always has a greater key behind it. */
  lemma LeftIsGuarded(s0: seq<Record>, s1: seq<Record>, left: nat, cut: nat, right: nat, first: nat)
    requires CutFrom(s0, s1, left, cut, right + 1) && FirstAbove(s0, left, first)
    ensures !RunsOff(s1[left..cut], s1[cut..])
  {
    var bound: nat := first;
    if first <= right { bound := RearrangedMember(s1, s0, left, right + 1, first); }
    var t, behind := s1[left..cut], s1[cut..];
    assert behind[bound - cut] == s1[bound];
    GuardedBehind(t, behind, bound - cut);
  }

  /** So the sort of the left part never runs off. */
  lemma LeftStaysInside(s0: seq<Record>, s1: seq<Record>, s2: seq<Record>, left: nat, cut: nat, right: nat,
                        first: nat, overrun: bool)
    requires CutFrom(s0, s1, left, cut, right + 1) && FirstAbove(s0, left, first)
    requires Ran(s1, s2, left, cut - 1, overrun)
    ensures !overrun && Rearranged(s1, s2, left, cut) && SortedSegment(s2, left, cut)
  {
    LeftIsGuarded(s0, s1, left, cut, right, first);
  }

  /** The right part is still there when its turn comes. */
  lemma RightIsKept(s0: seq<Record>, s1: seq<Record>, s2: seq<Record>, left: nat, cut: nat, right: nat)
    requires CutFrom(s0, s1, left, cut, right + 1) && Rearranged(s1, s2, left, cut)
    ensures s2[cut + 1..right + 1] == RightPart(s0[left..right + 1], s0[left].key)
    ensures s2[right + 1..] == s0[right + 1..]
  {
    assert s2[cut + 1..right + 1] == s1[cut + 1..right + 1];
  }

  lemma RunsOffUnfold(t: seq<Record>, behind: seq<Record>)
    requires |t| >= 2 && !(NoneAbove(t, t[0].key) && NoneAbove(behind, t[0].key))
    ensures RunsOff(t, behind) <==> RunsOff(RightPart(t, t[0].key), behind)
  {
  }

  /** So it decides whether the run stays inside. */
  lemma RightDecides(s0: seq<Record>, s1: seq<Record>, s2: seq<Record>, left: nat, cut: nat, right: nat)
    requires left < right && CutFrom(s0, s1, left, cut, right + 1) && Rearranged(s1, s2, left, cut)
    requires !PivotIsGreatest(s0, left, |s0| - 1)
    ensures RunsOff(s0[left..right + 1], s0[right + 1..]) <==> RunsOff(s2[cut + 1..right + 1], s2[right + 1..])
  {
    FirstCut(s0, left, right);
    RunsOffUnfold(s0[left..right + 1], s0[right + 1..]);
    RightIsKept(s0, s1, s2, left, cut, right);
  }

  /** And the run as a whole goes as that of the right part. */
  lemma RunOfRight(s0: seq<Record>, s1: seq<Record>, s2: seq<Record>, s3: seq<Record>, left: nat, cut: nat,
                   right: nat, overrun: bool)
    requires left < right && CutFrom(s0, s1, left, cut, right + 1) && !PivotIsGreatest(s0, left, |s0| - 1)
    requires Rearranged(s1, s2, left, cut) && SortedSegment(s2, left, cut)
    requires Ran(s2, s3, cut + 1, right, overrun)
    ensures Ran(s0, s3, left, right, overrun)
  {
    assert Rearranged(s2, s3, cut + 1, right + 1);
    QuickStep(s0, s1, s2, s3, left, cut, right + 1, !overrun);
    RightDecides(s0, s1, s2, left, cut, right);
  }

  /** quick_sort on `[left..right]`. */
  method Sort(a: array<Record>, left: int, right: int) returns (overrun: bool)
    requires left <= right ==> 0 <= left && right < a.Length
    modifies a
    ensures Ran(old(a[..]), a[..], left, right, overrun)
    decreases right - left, 1
  {
    ghost var s0 := a[..];
    if left >= right {
      NothingToSort(s0, left, right);
      return false;
    }
    ghost var first, later;
    var cut: int;
    overrun, cut, first, later := Partition(a, left, right);
    if overrun {
      RanOffAtOnce(s0, left, right);
      return;
    }
    ghost var s1 := a[..];
    SortLeft(a, left, cut, right, s0, first);
    overrun := SortRight(a, left, cut, right, s0, s1);
  }

  /** The recursive call on the left part. */
  method SortLeft(a: array<Record>, left: nat, cut: nat, right: nat, ghost s0: seq<Record>, ghost first: nat)
    requires left < right < a.Length && CutFrom(s0, a[..], left, cut, right + 1) && FirstAbove(s0, left, first)
    modifies a
    ensures Rearranged(old(a[..]), a[..], left, cut) && SortedSegment(a[..], left, cut)
    decreases right - left, 0
  {
    ghost var s1 := a[..];
    var overrun := Sort(a, left, cut - 1);
    LeftStaysInside(s0, s1, a[..], left, cut, right, first, overrun);
    assert !overrun;
  }

  /** The recursive call on the right part. */
  method SortRight(a: array<Record>, left: nat, cut: nat, right: nat, ghost s0: seq<Record>, ghost s1: seq<Record>)
    returns (overrun: bool)
    requires left < right < a.Length && CutFrom(s0, s1, left, cut, right + 1)
    requires !PivotIsGreatest(s0, left, |s0| - 1)
    requires Rearranged(s1, a[..], left, cut) && SortedSegment(a[..], left, cut)
    modifies a
    ensures Ran(s0, a[..], left, right, overrun)
    decreases right - left, 0
  {
    ghost var s2 := a[..];
    overrun := Sort(a, cut + 1, right);
    RunOfRight(s0, s1, s2, a[..], left, cut, right, overrun);
  }

  // ------------------------------------------------------------ which inputs run off

  /** How many records have a key above `k`. */
  function CountAbove(t: seq<Record>, k: int): (n: nat)
    ensures n <= |t| && (n == 0 <==> NoneAbove(t, k))
  {
    if t == [] then 0 else (if t[0].key > k then 1 else 0) + CountAbove(t[1..], k)
  }

  lemma {:induction false} CountAboveConcat(t: seq<Record>, u: seq<Record>, k: int)
    ensures CountAbove(t + u, k) == CountAbove(t, k) + CountAbove(u, k)
  {
    if t == [] {
      assert t + u == u;
    } else {
      assert (t + u)[1..] == t[1..] + u;
      CountAboveConcat(t[1..], u, k);
    }
  }

  /** No key above the pivot gets lost. */
  lemma {:induction false} AboveKept(t: seq<Record>, p: int, k: int)
    requires p <= k
    ensures CountAbove(RightPart(t, p), k) == CountAbove(t, k)
    decreases |t|
  {
    if t != [] {
      var n := |t| - 1;
      if t[0].key <= p {
        AboveKept(t[1..], p, k);
      } else if t[n].key > p {
        assert t == t[..n] + [t[n]];
        AboveKept(t[..n], p, k);
        CountAboveSnoc(RightPart(t[..n], p), t[..n], t[n], k);
      } else {
        assert t == [t[0]] + t[1..n] + [t[n]];
        AboveKept(t[1..n], p, k);
        CountAboveEnds(RightPart(t[1..n], p), t[0], t[1..n], t[n], k);
      }
    }
  }

  lemma CountAboveSnoc(r: seq<Record>, t: seq<Record>, x: Record, k: int)
    requires CountAbove(r, k) == CountAbove(t, k)
    ensures CountAbove(r + [x], k) == CountAbove(t + [x], k)
  {
    CountAboveConcat(r, [x], k);
    CountAboveConcat(t, [x], k);
  }

  lemma CountAboveEnds(r: seq<Record>, x: Record, t: seq<Record>, y: Record, k: int)
    requires CountAbove(r, k) == CountAbove(t, k) && y.key <= k
    ensures CountAbove(r + [x], k) == CountAbove([x] + t + [y], k)
  {
    CountAboveConcat(r, [x], k);
    CountAboveConcat([x] + t, [y], k);
    CountAboveConcat([x], t, k);
  }

  lemma {:induction false} AllCounted(t: seq<Record>, k: int)
    requires forall x :: x in t ==> x.key > k
    ensures CountAbove(t, k) == |t|
  {
    if t != [] { AllCounted(t[1..], k); }
  }

  lemma RightPartSize(t: seq<Record>, p: int)
    ensures |RightPart(t, p)| == CountAbove(t, p)
  {
    AboveKept(t, p, p);
    RightPartMembers(t, p);
    AllCounted(RightPart(t, p), p);
  }

  /** The pivots of the segment, its right part, the right part of that, and so on. */
  function PivotKeys(t: seq<Record>): (ks: seq<int>)
    decreases |t|
  {
    if |t| < 2 then [] else [t[0].key] + PivotKeys(RightPart(t, t[0].key))
  }

  lemma {:induction false} PivotKeysMembers(t: seq<Record>, k: int)
    requires k in PivotKeys(t)
    ensures exists x :: x in t && x.key == k
    decreases |t|
  {
    assert t[0] in t;
    if k != t[0].key {
      RightPartMembers(t, t[0].key);
      PivotKeysMembers(RightPart(t, t[0].key), k);
    }
  }

  ghost predicate HasPivot(t: seq<Record>, n: nat) {
    exists k :: k in PivotKeys(t) && CountAbove(t, k) == n
  }

  lemma PivotOfRightPart(t: seq<Record>, n: nat)
    requires |t| >= 2 && CountAbove(t, t[0].key) != n
    ensures HasPivot(t, n) <==> HasPivot(RightPart(t, t[0].key), n)
  {
    var p := t[0].key;
    var r := RightPart(t, p);
    forall k | k in PivotKeys(r) ensures CountAbove(r, k) == CountAbove(t, k) {
      PivotKeysMembers(r, k);
      RightPartMembers(t, p);
      AboveKept(t, p, k);
    }
    if HasPivot(t, n) {
      var k :| k in PivotKeys(t) && CountAbove(t, k) == n;
      assert k in PivotKeys(r);
    }
    if HasPivot(r, n) {
      var k :| k in PivotKeys(r) && CountAbove(r, k) == n;
      assert k in PivotKeys(t);
    }
  }

  /** A segment that ends the array runs off if and only if a greatest key becomes the pivot
      of a right part, and stays inside if and only if a key with exactly one above it does. */
  lemma {:induction false} DecidedByPivots(t: seq<Record>)
    requires |t| >= 2
    ensures RunsOff(t, []) <==> HasPivot(t, 0)
    ensures !RunsOff(t, []) <==> HasPivot(t, 1)
    decreases |t|
  {
    var p := t[0].key;
    var r := RightPart(t, p);
    RightPartSize(t, p);
    assert p in PivotKeys(t);
    if |r| >= 2 {
      DecidedByPivots(r);
      PivotOfRightPart(t, 0);
      PivotOfRightPart(t, 1);
    } else {
      assert PivotKeys(t) == [p];
    }
  }

  /** With exactly one key above the first one a segment does not run off. */
  lemma OneAboveStaysInside(t: seq<Record>, behind: seq<Record>)
    requires |t| >= 2 && CountAbove(t, t[0].key) == 1
    ensures !RunsOff(t, behind)
  {
    RightPartSize(t, t[0].key);
  }

  /** The last key is above all others. */
  ghost predicate StrictlyGreatestLast(t: seq<Record>) {
    t != [] && forall i :: 0 <= i < |t| - 1 ==> t[i].key < t[|t| - 1].key
  }

  lemma {:induction false} GreatestLastStaysInside(t: seq<Record>, behind: seq<Record>)
    requires StrictlyGreatestLast(t)
    ensures !RunsOff(t, behind)
    decreases |t|
  {
    if |t| >= 2 {
      var p, n := t[0].key, |t| - 1;
      var r := RightPart(t[..n], p);
      assert t == t[..n] + [t[n]];
      KeepLast(t[..n], t[n], p);
      RightPartMembers(t[..n], p);
      forall i | 0 <= i < |r| ensures r[i].key < t[n].key {
        assert r[i] in t[..n];
      }
      GreatestLastStaysInside(r + [t[n]], behind);
    }
  }

  /** The greatest key stands first and others follow, or it occurs twice. */
  ghost predicate GreatestFirstOrTwice(t: seq<Record>) {
    && |t| >= 2
    && exists p, q :: 0 <= p <= q < |t| && (p == 0 || p < q) && t[p].key == t[q].key && NoneAbove(t, t[p].key)
  }

  lemma CountTwo(t: seq<Record>, p: nat, q: nat, k: int)
    requires p < q < |t| && t[p].key > k && t[q].key > k
    ensures CountAbove(t, k) >= 2
  {
    assert t == t[..q] + t[q..];
    CountAboveConcat(t[..q], t[q..], k);
    assert t[..q][p].key > k && t[q..][0].key > k;
  }

  lemma {:induction false} GreatestTwiceRunsOff(t: seq<Record>, behind: seq<Record>, top: int)
    requires NoneAbove(t, top) && NoneAbove(behind, top) && CountAbove(t, top - 1) >= 2
    ensures RunsOff(t, behind)
    decreases |t|
  {
    var p := t[0].key;
    var r := RightPart(t, p);
    if p < top {
      AboveKept(t, p, top - 1);
      RightPartMembers(t, p);
      forall i | 0 <= i < |r| ensures r[i].key <= top { assert r[i] in t; }
      GreatestTwiceRunsOff(r, behind, top);
    }
  }

  lemma GreatestFirstOrTwiceRunsOff(t: seq<Record>)
    requires GreatestFirstOrTwice(t)
    ensures RunsOff(t, [])
  {
    var p, q :| 0 <= p <= q < |t| && (p == 0 || p < q) && t[p].key == t[q].key && NoneAbove(t, t[p].key);
    if p < q {
      CountTwo(t, p, q, t[p].key - 1);
      GreatestTwiceRunsOff(t, [], t[p].key);
    }
  }

  lemma SegmentIsWhole(s0: seq<Record>, s: seq<Record>)
    requires Rearranged(s0, s, 0, |s|) && SortedSegment(s, 0, |s|)
    ensures SortOf(s0, s)
  {
  }

  lemma WholeArray(s: seq<Record>)
    ensures |s| <= 1 || StrictlyGreatestLast(s) ==> !RunsOff(s, [])
    ensures GreatestFirstOrTwice(s) ==> RunsOff(s, [])
  {
    if StrictlyGreatestLast(s) { GreatestLastStaysInside(s, []); }
    if GreatestFirstOrTwice(s) { GreatestFirstOrTwiceRunsOff(s); }
  }

  /** quick_sort on a whole array with nothing behind it, as main calls it. */
  method SortArray(a: array<Record>) returns (overrun: bool)
    modifies a
    ensures multiset(a[..]) == multiset(old(a[..]))
    ensures overrun <==> RunsOff(old(a[..]), [])
    ensures !overrun ==> SortOf(old(a[..]), a[..])
    ensures a.Length <= 1 || StrictlyGreatestLast(old(a[..])) ==> !overrun
    ensures GreatestFirstOrTwice(old(a[..])) ==> overrun
  {
    ghost var s0 := a[..];
    WholeArray(s0);
    assert s0 != [] ==> s0[0..|s0|] == s0 && s0[|s0|..] == [];
    overrun := Sort(a, 0, a.Length - 1);
    if !overrun && a.Length > 0 { SegmentIsWhole(s0, a[..]); }
  }

  /** Two cells run off unless they are in strictly ascending order. */
  lemma PairRunsOff(x: Record, y: Record)
    ensures RunsOff([x, y], []) <==> x.key >= y.key
  {
    var t := [x, y];
    assert t[0] == x && t[1] == y;
    assert CountAbove(t, x.key) == if y.key > x.key then 1 else 0 by {
      assert t[1..] == [y] && [y][1..] == [];
    }
    RightPartSize(t, x.key);
  }

  /** A key below all others that stands first changes nothing for the rest. */
  lemma LeastFirst(x: Record, t: seq<Record>)
    requires t != [] && forall i :: 0 <= i < |t| ==> t[i].key > x.key
    ensures RunsOff([x] + t, []) <==> RunsOff(t, [])
  {
    DropSmall([x], t, x.key);
    KeepLarge([], t, x.key);
    assert [] + t == t && ([x] + t)[1] == t[0];
  }

  /** [2, 1] and [1, 3, 2] run off; [1, 2] and [2, 3, 1] stay inside. */
  lemma RunOffExamples(one: Record, two: Record, three: Record)
    requires one.key == 1 && two.key == 2 && three.key == 3
    ensures RunsOff([two, one], []) && !RunsOff([one, two], [])
    ensures RunsOff([one] + [three, two], [])
    ensures !RunsOff([two] + [three, one], [])
  {
    PairRunsOff(two, one);
    PairRunsOff(one, two);
    PairRunsOff(three, two);
    LeastFirst(one, [three, two]);
    CountAboveConcat([two], [three, one], 2);
    assert [three, one][1..] == [one];
    OneAboveStaysInside([two] + [three, one], []);
  }
}
