/**
The five sorting programs side by side on the same input.
*/
module SortAgreement {
  import opened SortSpec
  import ExchangeSorts
  import MergeSort
  import QuickSort

  method ArrayOf(s: seq<Record>) returns (a: array<Record>)
    ensures fresh(a) && a[..] == s
  {
    a := new Record[|s|];
    for i := 0 to |s|
      invariant a[..i] == s[..i]
    {
      a[i] := s[i];
    }
  }

  method Insertion(input: seq<Record>) returns (r: seq<Record>, ghost swaps: nat)
    ensures StableSortOf(input, r) && swaps == Inversions(input)
  {
    var a := ArrayOf(input);
    swaps := ExchangeSorts.InsertionSort(a);
    r := a[..];
  }

  method Bubble(input: seq<Record>) returns (r: seq<Record>, ghost swaps: nat)
    ensures StableSortOf(input, r) && swaps == Inversions(input)
  {
    var a := ArrayOf(input);
    swaps := ExchangeSorts.BubbleSort(a);
    r := a[..];
  }

  method Selection(input: seq<Record>) returns (r: seq<Record>)
    ensures SortOf(input, r)
  {
    var a := ArrayOf(input);
    ExchangeSorts.SelectionSort(a);
    r := a[..];
  }

  method Merging(input: seq<Record>) returns (r: seq<Record>)
    ensures StableSortOf(input, r)
  {
    var a := ArrayOf(input);
    MergeSort.Sort(a, 0, a.Length - 1);
    r := a[..];
    assert input[0..|input|] == input && r[0..|r|] == r;
  }

  /** A key above all keys of `s`. */
  ghost predicate Above(s: seq<Record>, k: int) {
    forall i :: 0 <= i < |s| ==> s[i].key < k
  }

  method KeyAbove(s: seq<Record>) returns (k: int)
    ensures Above(s, k)
  {
    k := 0;
    for i := 0 to |s|
      invariant Above(s[..i], k)
    {
      assert s[..i + 1] == s[..i] + [s[i]];
      if k <= s[i].key { k := s[i].key + 1; }
    }
    assert s[..|s|] == s;
  }

  /** Rearranging all but the last record of `s + [x]`. */
  lemma PrefixSorted(s: seq<Record>, x: Record, r: seq<Record>, n: nat)
    requires n == |s| && QuickSort.Rearranged(s + [x], r, 0, n) && QuickSort.SortedSegment(r, 0, n)
    ensures SortOf(s, r[..n])
  {
    QuickSort.RearrangedSegment(s + [x], r, 0, n);
    assert (s + [x])[0..n] == s && r[0..n] == r[..n];
  }

  /** Quick sort with one greater key behind the input, so that it stays inside the array. */
  method Quick(input: seq<Record>) returns (r: seq<Record>)
    ensures SortOf(input, r)
  {
    var top := KeyAbove(input);
    var a := ArrayOf(input + [Record(top, 0)]);
    assert input != [] ==> a[..][0..|input|] == input && a[..][|input|..][0].key == top;
    if input != [] { QuickSort.GuardedBehind(input, a[..][|input|..], 0); }
    var overrun := QuickSort.Sort(a, 0, |input| - 1);
    r := a[..|input|];
    if |input| > 0 { PrefixSorted(input, Record(top, 0), a[..], |input|); }
  }

  /** Insertion, bubble and merge sort deliver the same records; all five deliver the same
      integers; insertion and bubble sort exchange neighbours equally often. */
  method AllFiveAgree(input: seq<Record>)
    returns (insertion: seq<Record>, bubble: seq<Record>, merge: seq<Record>,
             selection: seq<Record>, quick: seq<Record>, ghost insertionSwaps: nat, ghost bubbleSwaps: nat)
    ensures StableSortOf(input, insertion)
    ensures insertion == bubble == merge
    ensures Keys(insertion) == Keys(selection) == Keys(quick)
    ensures insertionSwaps == bubbleSwaps == Inversions(input)
  {
    insertion, insertionSwaps := Insertion(input);
    bubble, bubbleSwaps := Bubble(input);
    merge := Merging(input);
    selection := Selection(input);
    quick := Quick(input);
    StableSortsAgree(input, insertion, bubble);
    StableSortsAgree(input, insertion, merge);
    StableIsPermutation(input, insertion);
    SortsShowSameKeys(input, insertion, selection);
    SortsShowSameKeys(input, insertion, quick);
  }
}
