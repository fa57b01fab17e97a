/**
Insertion sort and bubble sort, which move records by exchanging neighbours, and selection
sort, which exchanges records far apart.
*/
module ExchangeSorts {
  import opened SortSpec

  /** After `swaps` exchanges `s` is still a stable rearrangement of `s0`, and every exchange
      has removed one inversion. */
  ghost predicate Progress(s0: seq<Record>, s: seq<Record>, swaps: nat) {
    Stable(s0, s) && swaps + Inversions(s) == Inversions(s0)
  }

  lemma SwapProgress(s0: seq<Record>, s: seq<Record>, swaps: nat, i: nat)
    requires Progress(s0, s, swaps)
    requires i + 1 < |s| && s[i + 1].key < s[i].key
    ensures Progress(s0, SwapAt(s, i), swaps + 1)
  {
    SwapIsStable(s, i);
    SwapRemovesOneInversion(s, i);
  }

  lemma Finished(s0: seq<Record>, s: seq<Record>, swaps: nat)
    requires Progress(s0, s, swaps) && Sorted(s)
    ensures StableSortOf(s0, s) && swaps == Inversions(s0)
  {
    SortedHasNoInversions(s);
  }

  /** The exchange of two neighbours that stand in the wrong order. */
  method SwapNeighbours(a: array<Record>, i: nat, ghost s0: seq<Record>, ghost swaps: nat)
    requires i + 1 < a.Length && a[i + 1].key < a[i].key
    requires Progress(s0, a[..], swaps)
    modifies a
    ensures a[..] == SwapAt(old(a[..]), i)
    ensures Progress(s0, a[..], swaps + 1)
  {
    SwapProgress(s0, a[..], swaps, i);
    a[i], a[i + 1] := a[i + 1], a[i];
  }

  // ------------------------------------------------------------ insertion sort

  /** The keys of `s[..n]` are in order, apart from the one travelling down, at `hole`. */
  ghost predicate SortedApartFrom(s: seq<Record>, n: nat, hole: nat)
    requires n <= |s|
  {
    forall i, j :: 0 <= i < j < n && j != hole ==> s[i].key <= s[j].key
  }

  method Insert(a: array<Record>, round: nat, ghost s0: seq<Record>, ghost swaps0: nat) returns (ghost swaps: nat)
    requires round < a.Length && Sorted(a[..round])
    requires Progress(s0, a[..], swaps0)
    modifies a
    ensures Sorted(a[..round + 1])
    ensures Progress(s0, a[..], swaps)
  {
    swaps := swaps0;
    var current: int, prev: int := round, round - 1;
    assert SortedApartFrom(a[..], round + 1, round) by {
      assert forall i :: 0 <= i < round ==> a[..][i] == a[..round][i];
    }
    while prev >= 0
      invariant -1 <= prev < round && current == prev + 1
      invariant SortedApartFrom(a[..], round + 1, current)
      invariant Progress(s0, a[..], swaps)
    {
      if a[current].key < a[prev].key {
        SwapNeighbours(a, prev, s0, swaps);
        swaps := swaps + 1;
        current := current - 1;
        prev := prev - 1;
      } else {
        break;
      }
    }
    assert forall i :: 0 <= i < current ==> a[..][i].key <= a[..][current].key;
    assert forall i :: 0 <= i < round + 1 ==> a[..][i] == a[..round + 1][i];
  }

  /** Sorts stably, and the number of exchanges is the number of inversions of the input. */
  method InsertionSort(a: array<Record>) returns (ghost swaps: nat)
    modifies a
    ensures StableSortOf(old(a[..]), a[..])
    ensures swaps == Inversions(old(a[..]))
  {
    ghost var s0 := a[..];
    swaps := 0;
    var round := 0;
    while round < a.Length
      invariant round <= a.Length
      invariant Sorted(a[..round])
      invariant Progress(s0, a[..], swaps)
    {
      swaps := Insert(a, round, s0, swaps);
      round := round + 1;
    }
    assert a[..a.Length] == a[..];
    Finished(s0, a[..], swaps);
  }

  // ------------------------------------------------------------ bubble sort

  /** The last `done` records are in their final places. */
  ghost predicate TopSorted(s: seq<Record>, done: nat)
    requires done <= |s|
  {
    forall i, j :: 0 <= i < j < |s| && |s| - done <= j ==> s[i].key <= s[j].key
  }

  /** `s[i]` is a greatest one of those before the finished ones. */
  ghost predicate Carried(s: seq<Record>, i: nat)
    requires i < |s|
  {
    forall j :: 0 <= j < i ==> s[j].key <= s[i].key
  }

  method Pass(a: array<Record>, ghost done: nat, ghost s0: seq<Record>, ghost swaps0: nat) returns (ghost swaps: nat)
    requires done < a.Length && TopSorted(a[..], done)
    requires Progress(s0, a[..], swaps0)
    modifies a
    ensures TopSorted(a[..], done + 1)
    ensures Progress(s0, a[..], swaps)
  {
    swaps := swaps0;
    var i := 0;
    while i < a.Length - 1
      invariant 0 <= i < a.Length
      invariant TopSorted(a[..], done)
      invariant Carried(a[..], i)
      invariant a.Length - done <= i + 1 ==> TopSorted(a[..], done + 1)
      invariant Progress(s0, a[..], swaps)
    {
      if a[i + 1].key < a[i].key {
        BubbleStep(a[..], i, done);
        SwapNeighbours(a, i, s0, swaps);
        swaps := swaps + 1;
      } else {
        CarriedOn(a[..], i, done);
      }
      i := i + 1;
    }
  }

  lemma BubbleStep(s: seq<Record>, i: nat, done: nat)
    requires done < |s| && i + 1 < |s| && s[i + 1].key < s[i].key
    requires TopSorted(s, done) && Carried(s, i)
    ensures var r := SwapAt(s, i);
            && TopSorted(r, done) && Carried(r, i + 1)
            && (|s| - done <= i + 2 ==> TopSorted(r, done + 1))
  {
    assert i + 1 < |s| - done;
  }

  lemma CarriedOn(s: seq<Record>, i: nat, done: nat)
    requires done < |s| && i + 1 < |s| && s[i].key <= s[i + 1].key
    requires TopSorted(s, done) && Carried(s, i)
    requires |s| - done <= i + 1 ==> TopSorted(s, done + 1)
    ensures Carried(s, i + 1)
    ensures |s| - done <= i + 2 ==> TopSorted(s, done + 1)
  {
    forall j | 0 <= j < i + 1 ensures s[j].key <= s[i + 1].key {
      assert s[j].key <= s[i].key;
    }
  }

  /** Sorts stably, and the number of exchanges is the number of inversions of the input. */
  method BubbleSort(a: array<Record>) returns (ghost swaps: nat)
    modifies a
    ensures StableSortOf(old(a[..]), a[..])
    ensures swaps == Inversions(old(a[..]))
  {
    ghost var s0 := a[..];
    swaps := 0;
    var round := 0;
    while round < a.Length
      invariant round <= a.Length
      invariant TopSorted(a[..], round)
      invariant Progress(s0, a[..], swaps)
    {
      swaps := Pass(a, round, s0, swaps);
      round := round + 1;
    }
    Finished(s0, a[..], swaps);
  }

  // ------------------------------------------------------------ selection sort

  /** The first `done` records are in their final places. */
  ghost predicate BottomSorted(s: seq<Record>, done: nat)
    requires done <= |s|
  {
    forall i, j :: 0 <= i < j < |s| && i < done ==> s[i].key <= s[j].key
  }

  /** The index of a least record from `i` on. */
  method SelectMinimum(a: array<Record>, i: nat) returns (minIdx: nat)
    requires i < a.Length
    ensures i <= minIdx < a.Length
    ensures forall j :: i <= j < a.Length ==> a[minIdx].key <= a[j].key
    ensures forall j :: i <= j < minIdx ==> a[minIdx].key < a[j].key
  {
    minIdx := i;
    for j := i + 1 to a.Length
      invariant i <= minIdx < j
      invariant forall m :: i <= m < j ==> a[minIdx].key <= a[m].key
      invariant forall m :: i <= m < minIdx ==> a[minIdx].key < a[m].key
    {
      if a[j].key < a[minIdx].key { minIdx := j; }
    }
  }

  /** Sorts, keeping all records; equal keys may change places. */
  method SelectionSort(a: array<Record>)
    modifies a
    ensures SortOf(old(a[..]), a[..])
  {
    var i := 0;
    while i < a.Length - 1
      invariant 0 <= i && (a.Length > 0 ==> i < a.Length)
      invariant i <= |a[..]| && BottomSorted(a[..], i)
      invariant multiset(a[..]) == multiset(old(a[..]))
    {
      var minIdx := SelectMinimum(a, i);
      SelectStep(a[..], i, minIdx);
      a[i], a[minIdx] := a[minIdx], a[i];
      i := i + 1;
    }
  }

  lemma SelectStep(s: seq<Record>, i: nat, m: nat)
    requires i <= m < |s| && BottomSorted(s, i)
    requires forall j :: i <= j < |s| ==> s[m].key <= s[j].key
    ensures BottomSorted(s[i := s[m]][m := s[i]], i + 1)
    ensures multiset(s[i := s[m]][m := s[i]]) == multiset(s)
  {
  }
}
