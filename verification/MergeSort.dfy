/**
Merge sort on a segment of an array, through two temporary buffers.
*/
module MergeSort {
  import opened SortSpec

  /** Two queues into one: the smaller front goes first, and on a tie the left one. */
  ghost function Merge(l: seq<Record>, r: seq<Record>): (m: seq<Record>)
    ensures |m| == |l| + |r|
    decreases |l| + |r|
  {
    if l == [] then r
    else if r == [] then l
    else if l[0].key <= r[0].key then [l[0]] + Merge(l[1..], r)
    else [r[0]] + Merge(l, r[1..])
  }

  lemma PrependLeast(x: Record, s: seq<Record>)
    requires Sorted(s) && forall y :: y in s ==> x.key <= y.key
    ensures Sorted([x] + s)
  {
    forall i, j | 0 <= i < j < |[x] + s| ensures ([x] + s)[i].key <= ([x] + s)[j].key {
      assert ([x] + s)[j] == s[j - 1];
      if i > 0 { assert ([x] + s)[i] == s[i - 1]; }
    }
  }

  lemma FrontIsLeast(s: seq<Record>, x: Record)
    requires Sorted(s) && x in s
    ensures s[0].key <= x.key
  {
    var i :| 0 <= i < |s| && s[i] == x;
  }

  lemma {:induction false} MergeMembers(l: seq<Record>, r: seq<Record>)
    ensures forall x :: x in Merge(l, r) ==> x in l || x in r
    decreases |l| + |r|
  {
    if l != [] && r != [] {
      if l[0].key <= r[0].key { MergeMembers(l[1..], r); } else { MergeMembers(l, r[1..]); }
    }
  }

  /** Merging sorted queues gives a sorted queue. */
  lemma {:induction false} MergeIsSorted(l: seq<Record>, r: seq<Record>)
    requires Sorted(l) && Sorted(r)
    ensures Sorted(Merge(l, r))
    decreases |l| + |r|
  {
    if l != [] && r != [] {
      forall x | x in l ensures l[0].key <= x.key { FrontIsLeast(l, x); }
      forall x | x in r ensures r[0].key <= x.key { FrontIsLeast(r, x); }
      if l[0].key <= r[0].key {
        MergeIsSorted(l[1..], r);
        MergeMembers(l[1..], r);
        PrependLeast(l[0], Merge(l[1..], r));
      } else {
        MergeIsSorted(l, r[1..]);
        MergeMembers(l, r[1..]);
        PrependLeast(r[0], Merge(l, r[1..]));
      }
    }
  }

  /** A sorted queue has no records with a key below its front. */
  lemma {:induction false} NoneWithKey(s: seq<Record>, k: int)
    requires Sorted(s) && s != [] && k < s[0].key
    ensures WithKey(s, k) == []
  {
    if |s| > 1 { NoneWithKey(s[1..], k); }
  }

  lemma WithKeyCons(x: Record, s: seq<Record>, k: int)
    ensures WithKey([x] + s, k) == (if x.key == k then [x] else []) + WithKey(s, k)
  {
    assert ([x] + s)[1..] == s;
  }

  lemma ConsAppend(x: Record, s: seq<Record>, m: seq<Record>, t: seq<Record>, k: int)
    requires WithKey(m, k) == WithKey(s, k) + t
    ensures WithKey([x] + m, k) == WithKey([x] + s, k) + t
  {
    WithKeyCons(x, m, k);
    WithKeyCons(x, s, k);
  }

  lemma ConsBehind(x: Record, s: seq<Record>, t: seq<Record>, m: seq<Record>, k: int)
    requires WithKey(m, k) == WithKey(s, k) + WithKey(t, k)
    requires x.key == k ==> WithKey(s, k) == []
    ensures WithKey([x] + m, k) == WithKey(s, k) + WithKey([x] + t, k)
  {
    WithKeyCons(x, m, k);
    WithKeyCons(x, t, k);
  }

  /** Merging keeps equal keys in order, those of the left queue first. */
  lemma {:induction false} MergeIsStable(l: seq<Record>, r: seq<Record>, k: int)
    requires Sorted(l)
    ensures WithKey(Merge(l, r), k) == WithKey(l, k) + WithKey(r, k)
    decreases |l| + |r|
  {
    if l != [] && r != [] {
      if l[0].key <= r[0].key {
        MergeIsStable(l[1..], r, k);
        ConsAppend(l[0], l[1..], Merge(l[1..], r), WithKey(r, k), k);
        assert l == [l[0]] + l[1..];
      } else {
        MergeIsStable(l, r[1..], k);
        if k == r[0].key { NoneWithKey(l, k); }
        ConsBehind(r[0], l, r[1..], Merge(l, r[1..]), k);
        assert r == [r[0]] + r[1..];
      }
    }
  }

  /** Merging stable sorts of two halves gives the stable sort of the whole. */
  lemma MergeOfStableSorts(s: seq<Record>, t: seq<Record>, l: seq<Record>, r: seq<Record>)
    requires StableSortOf(s, l) && StableSortOf(t, r)
    ensures StableSortOf(s + t, Merge(l, r))
  {
    MergeIsSorted(l, r);
    forall k ensures WithKey(s + t, k) == WithKey(Merge(l, r), k) {
      WithKeyConcat(s, t, k);
      MergeIsStable(l, r, k);
    }
  }

  // ------------------------------------------------------------ the array program

  /** The copy loops at the start of do_merge. */
  method CopyOut(a: array<Record>, from: nat, n: nat) returns (b: array<Record>)
    requires from + n <= a.Length
    ensures fresh(b) && b[..] == a[..][from..from + n]
  {
    b := new Record[n];
    for i := 0 to n
      invariant b[..i] == a[from..from + i]
    {
      b[i] := a[from + i];
    }
  }

  /** What is still to be merged, with `i` and `j` records already taken. */
  ghost function Rest(l: seq<Record>, r: seq<Record>, i: nat, j: nat): (m: seq<Record>)
    requires i <= |l| && j <= |r|
    ensures |m| == |l| - i + |r| - j
  {
    Merge(l[i..], r[j..])
  }

  lemma TakeLeft(l: seq<Record>, r: seq<Record>, i: nat, j: nat)
    requires i < |l| && j <= |r| && (j < |r| ==> l[i].key <= r[j].key)
    ensures Rest(l, r, i, j) == [l[i]] + Rest(l, r, i + 1, j)
  {
    assert l[i..][1..] == l[i + 1..] && l[i..] == [l[i]] + l[i + 1..];
  }

  lemma TakeRight(l: seq<Record>, r: seq<Record>, i: nat, j: nat)
    requires i <= |l| && j < |r| && (i < |l| ==> r[j].key < l[i].key)
    ensures Rest(l, r, i, j) == [r[j]] + Rest(l, r, i, j + 1)
  {
    assert r[j..][1..] == r[j + 1..] && r[j..] == [r[j]] + r[j + 1..];
  }

  /** `s` is `s0` with the first records of the merge `m` written at `left`, up to `k`; what
      is not yet written of it is `rest`. */
  ghost predicate Written(s0: seq<Record>, s: seq<Record>, left: nat, k: nat, rest: seq<Record>, m: seq<Record>) {
    && SameOutside(s0, s, left, left + |m|)
    && left <= k <= left + |m|
    && rest == m[k - left..]
    && forall p :: left <= p < k ==> s[p] == m[p - left]
  }

  method Write(a: array<Record>, k: nat, x: Record,
               ghost s0: seq<Record>, ghost left: nat, ghost rest: seq<Record>, ghost m: seq<Record>)
    requires Written(s0, a[..], left, k, [x] + rest, m)
    modifies a
    ensures Written(s0, a[..], left, k + 1, rest, m)
  {
    assert m[k - left] == ([x] + rest)[0] == x;
    assert m[k + 1 - left..] == ([x] + rest)[1..] == rest;
    a[k] := x;
  }

  /** The main loop of do_merge, until one buffer is used up. */
  method MergeFronts(a: array<Record>, l: array<Record>, r: array<Record>, left: nat,
                     ghost s0: seq<Record>, ghost ls: seq<Record>, ghost rs: seq<Record>, ghost m: seq<Record>)
    returns (i: nat, j: nat)
    requires a != l && a != r && ls == l[..] && rs == r[..]
    requires Written(s0, a[..], left, left, Rest(ls, rs, 0, 0), m)
    modifies a
    ensures i <= |ls| && j <= |rs| && (i == |ls| || j == |rs|)
    ensures Written(s0, a[..], left, left + i + j, Rest(ls, rs, i, j), m)
  {
    i, j := 0, 0;
    var k := left;
    while i < l.Length && j < r.Length
      invariant i <= l.Length && j <= r.Length && k == left + i + j
      invariant ls == l[..] && rs == r[..]
      invariant Written(s0, a[..], left, k, Rest(ls, rs, i, j), m)
    {
      if l[i].key <= r[j].key {
        TakeLeft(ls, rs, i, j);
        Write(a, k, l[i], s0, left, Rest(ls, rs, i + 1, j), m);
        i := i + 1;
      } else {
        TakeRight(ls, rs, i, j);
        Write(a, k, r[j], s0, left, Rest(ls, rs, i, j + 1), m);
        j := j + 1;
      }
      k := k + 1;
    }
  }

  /** The loop that copies what the left buffer has left. */
  method DrainLeft(a: array<Record>, l: array<Record>, left: nat, i0: nat, j: nat,
                   ghost s0: seq<Record>, ghost ls: seq<Record>, ghost rs: seq<Record>, ghost m: seq<Record>)
    requires a != l && ls == l[..]
    requires i0 <= |ls| && j <= |rs| && (i0 == |ls| || j == |rs|)
    requires Written(s0, a[..], left, left + i0 + j, Rest(ls, rs, i0, j), m)
    modifies a
    ensures Written(s0, a[..], left, left + |ls| + j, Rest(ls, rs, |ls|, j), m)
  {
    var i, k := i0, left + i0 + j;
    while i < l.Length
      invariant i <= l.Length && (i == l.Length || j == |rs|) && k == left + i + j
      invariant ls == l[..]
      invariant Written(s0, a[..], left, k, Rest(ls, rs, i, j), m)
    {
      TakeLeft(ls, rs, i, j);
      Write(a, k, l[i], s0, left, Rest(ls, rs, i + 1, j), m);
      i := i + 1;
      k := k + 1;
    }
  }

  /** The loop that copies what the right buffer has left. */
  method DrainRight(a: array<Record>, r: array<Record>, left: nat, n1: nat, j0: nat,
                    ghost s0: seq<Record>, ghost ls: seq<Record>, ghost rs: seq<Record>, ghost m: seq<Record>)
    requires a != r && rs == r[..]
    requires n1 == |ls| && j0 <= |rs|
    requires Written(s0, a[..], left, left + n1 + j0, Rest(ls, rs, n1, j0), m)
    modifies a
    ensures Written(s0, a[..], left, left + n1 + |rs|, Rest(ls, rs, n1, |rs|), m)
  {
    var j, k := j0, left + n1 + j0;
    while j < r.Length
      invariant j <= r.Length && k == left + n1 + j
      invariant rs == r[..]
      invariant Written(s0, a[..], left, k, Rest(ls, rs, n1, j), m)
    {
      TakeRight(ls, rs, n1, j);
      Write(a, k, r[j], s0, left, Rest(ls, rs, n1, j + 1), m);
      j := j + 1;
      k := k + 1;
    }
  }

  lemma AllWritten(s0: seq<Record>, s: seq<Record>, left: nat, k: nat, rest: seq<Record>, m: seq<Record>)
    requires Written(s0, s, left, k, rest, m) && |rest| == 0
    ensures SameOutside(s0, s, left, k) && s[left..k] == m
  {
  }

  lemma NothingWritten(s: seq<Record>, left: nat, l: seq<Record>, r: seq<Record>)
    requires left + |l| + |r| <= |s|
    ensures Written(s, s, left, left, Rest(l, r, 0, 0), Merge(l, r))
  {
    assert l[0..] == l && r[0..] == r;
  }

  /** The three loops of do_merge, from the filled buffers on. */
  method MergeBuffers(a: array<Record>, l: array<Record>, r: array<Record>, left: nat)
    requires a != l && a != r && left + l.Length + r.Length <= a.Length
    modifies a
    ensures SameOutside(old(a[..]), a[..], left, left + l.Length + r.Length)
    ensures a[..][left..left + l.Length + r.Length] == Merge(old(l[..]), old(r[..]))
  {
    ghost var s0, ls, rs := a[..], l[..], r[..];
    ghost var m := Merge(ls, rs);
    NothingWritten(s0, left, ls, rs);
    var i, j := MergeFronts(a, l, r, left, s0, ls, rs, m);
    assert l[..] == ls;
    DrainLeft(a, l, left, i, j, s0, ls, rs, m);
    assert r[..] == rs;
    DrainRight(a, r, left, l.Length, j, s0, ls, rs, m);
    AllWritten(s0, a[..], left, left + |ls| + |rs|, Rest(ls, rs, |ls|, |rs|), m);
  }

  /** do_merge: the two halves of the segment are merged in place. */
  method DoMerge(a: array<Record>, left: nat, mid: nat, right: nat)
    requires left <= mid < right < a.Length
    modifies a
    ensures SameOutside(old(a[..]), a[..], left, right + 1)
    ensures a[..][left..right + 1] == Merge(old(a[..])[left..mid + 1], old(a[..])[mid + 1..right + 1])
  {
    var n1, n2 := mid - left + 1, right - mid;
    var leftArr := CopyOut(a, left, n1);
    var rightArr := CopyOut(a, mid + 1, n2);
    MergeBuffers(a, leftArr, rightArr, left);
  }

  /** The segment `[x..z)` is stably sorted and nothing else has moved. */
  ghost predicate SegmentSorted(s0: seq<Record>, s: seq<Record>, x: nat, z: nat) {
    SameOutside(s0, s, x, z) && StableSortOf(s0[x..z], s[x..z])
  }

  /** merge_sort: a stable sort of the segment; nothing else moves. */
  method Sort(a: array<Record>, left: int, right: int)
    requires left <= right ==> 0 <= left && right < a.Length
    modifies a
    ensures left >= right ==> a[..] == old(a[..])
    ensures left <= right ==> SegmentSorted(old(a[..]), a[..], left, right + 1)
    decreases right - left
  {
    if left >= right { return; }
    var mid := (left + right) / 2;
    ghost var s0 := a[..];
    Sort(a, left, mid);
    ghost var s1 := a[..];
    Sort(a, mid + 1, right);
    ghost var s2 := a[..];
    DoMerge(a, left, mid, right);
    HalvesToWhole(s0, s1, s2, a[..], left, mid + 1, right + 1);
  }

  lemma SliceKept(s0: seq<Record>, s: seq<Record>, x: nat, z: nat, p: nat, q: nat)
    requires SameOutside(s0, s, x, z) && p <= q <= |s| && (q <= x || z <= p)
    ensures s[p..q] == s0[p..q]
  {
  }

  /** Sorting `[x..y)`, then `[y..z)`, and merging, sorts `[x..z)`. */
  lemma HalvesToWhole(s0: seq<Record>, s1: seq<Record>, s2: seq<Record>, s3: seq<Record>, x: nat, y: nat, z: nat)
    requires x <= y <= z && SegmentSorted(s0, s1, x, y) && SegmentSorted(s1, s2, y, z)
    requires SameOutside(s2, s3, x, z) && s3[x..z] == Merge(s2[x..y], s2[y..z])
    ensures SegmentSorted(s0, s3, x, z)
  {
    SliceKept(s1, s2, y, z, x, y);
    SliceKept(s0, s1, x, y, y, z);
    assert s0[x..z] == s0[x..y] + s0[y..z];
    MergeOfStableSorts(s0[x..y], s0[y..z], s2[x..y], s2[y..z]);
  }

  // ------------------------------------------------------------ the declared buffer sizes

  /** do_merge declares `left_arr` with the `n2` cells of the right half and `right_arr` with
      the `n1` cells of the left half. The whole recursion on `[left..right]` stays inside
      buffers of these sizes when at every level each half fits the buffer declared for the
      other one. */
  predicate DeclaredBuffersFit(left: nat, right: int)
    decreases right - left
  {
    left >= right ||
    var mid := (left + right) / 2;
    var n1, n2 := mid - left + 1, right - mid;
    n1 <= n2 && n2 <= n1 && DeclaredBuffersFit(left, mid) && DeclaredBuffersFit(mid + 1, right)
  }

  function Pow2(e: nat): (p: nat)
    ensures p >= 1
  {
    if e == 0 then 1 else 2 * Pow2(e - 1)
  }

  /** The declared sizes suffice for exactly the lengths that are powers of two. */
  lemma {:induction false} DeclaredBuffersFitPowersOfTwo(left: nat, right: int)
    requires left <= right
    ensures DeclaredBuffersFit(left, right) <==> exists e: nat :: right - left + 1 == Pow2(e)
    decreases right - left
  {
    var n, mid := right - left + 1, (left + right) / 2;
    if n == 1 {
      assert n == Pow2(0);
    } else {
      DeclaredBuffersFitPowersOfTwo(left, mid);
      DeclaredBuffersFitPowersOfTwo(mid + 1, right);
      if DeclaredBuffersFit(left, right) {
        var e: nat :| mid - left + 1 == Pow2(e);
        assert n == Pow2(e + 1);
      }
      if exists e: nat :: n == Pow2(e) {
        var e: nat :| n == Pow2(e);
        assert n == 2 * Pow2(e - 1);
        assert mid - left + 1 == Pow2(e - 1) == right - mid;
      }
    }
  }

  /** Sorting three records already needs one cell more than is declared. */
  lemma ThreeRecordsDoNotFit()
    ensures !DeclaredBuffersFit(0, 2)
  {
    assert (0 + 2) / 2 == 1;
  }
}
