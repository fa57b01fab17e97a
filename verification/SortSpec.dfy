/**
What the five sorts have to deliver, stated on sequences of records. The programs compare
keys only; a payload travels with its key, so that stability can be observed. An integer
array of the source is an array of records whose payload does not matter.
*/
module SortSpec {

  datatype Record = Record(key: int, payload: int)

  /** The integers the program sees. */
  function Keys(s: seq<Record>): (ks: seq<int>)
    ensures |ks| == |s|
    ensures forall i :: 0 <= i < |s| ==> ks[i] == s[i].key
  {
    if s == [] then [] else [s[0].key] + Keys(s[1..])
  }

  ghost predicate Sorted(s: seq<Record>) {
    forall i, j :: 0 <= i < j < |s| ==> s[i].key <= s[j].key
  }

  /** The records with key `k`, in order of appearance. */
  ghost function WithKey(s: seq<Record>, k: int): (r: seq<Record>)
    ensures forall x :: x in r ==> x in s && x.key == k
  {
    if s == [] then [] else (if s[0].key == k then [s[0]] else []) + WithKey(s[1..], k)
  }

  /** `r` has the same records as `s`, and records with equal keys are in the same order. */
  ghost predicate Stable(s: seq<Record>, r: seq<Record>) {
    forall k :: WithKey(s, k) == WithKey(r, k)
  }

  ghost predicate StableSortOf(s: seq<Record>, r: seq<Record>) {
    Sorted(r) && Stable(s, r)
  }

  ghost predicate SortOf(s: seq<Record>, r: seq<Record>) {
    Sorted(r) && multiset(r) == multiset(s)
  }

  /** Outside `[x..z)` the two sequences agree. */
  ghost predicate SameOutside(s0: seq<Record>, s: seq<Record>, x: nat, z: nat) {
    && x <= z <= |s| == |s0|
    && forall p :: 0 <= p < |s| && (p < x || z <= p) ==> s[p] == s0[p]
  }

  /** How many records of `s` have a key below `k`. */
  ghost function Below(s: seq<Record>, k: int): nat {
    if s == [] then 0 else (if s[0].key < k then 1 else 0) + Below(s[1..], k)
  }

  /** The number of pairs that stand in the wrong order. */
  ghost function Inversions(s: seq<Record>): nat {
    if s == [] then 0 else Below(s[1..], s[0].key) + Inversions(s[1..])
  }

  // ------------------------------------------------------------ concatenation

  lemma {:induction false} WithKeyConcat(s: seq<Record>, t: seq<Record>, k: int)
    ensures WithKey(s + t, k) == WithKey(s, k) + WithKey(t, k)
  {
    if s == [] {
      assert s + t == t;
    } else {
      assert (s + t)[1..] == s[1..] + t;
      WithKeyConcat(s[1..], t, k);
    }
  }

  lemma {:induction false} BelowConcat(s: seq<Record>, t: seq<Record>, k: int)
    ensures Below(s + t, k) == Below(s, k) + Below(t, k)
  {
    if s == [] {
      assert s + t == t;
    } else {
      assert (s + t)[1..] == s[1..] + t;
      BelowConcat(s[1..], t, k);
    }
  }

  // ------------------------------------------------------------ adjacent swaps

  /** `s` with the records at `i` and `i + 1` exchanged. */
  ghost function SwapAt(s: seq<Record>, i: nat): (r: seq<Record>)
    requires i + 1 < |s|
    ensures |r| == |s|
  {
    s[i := s[i + 1]][i + 1 := s[i]]
  }

  lemma SplitAt(s: seq<Record>, i: nat)
    requires i + 1 < |s|
    ensures s == s[..i] + ([s[i], s[i + 1]] + s[i + 2..])
    ensures SwapAt(s, i) == s[..i] + ([s[i + 1], s[i]] + s[i + 2..])
  {
  }

  lemma WithKeyOfPair(x: Record, y: Record, t: seq<Record>, k: int)
    requires x.key != y.key
    ensures WithKey([x, y] + t, k) == WithKey([y, x] + t, k)
  {
    assert ([x, y] + t)[1..] == [y] + t && ([y] + t)[1..] == t;
    assert ([y, x] + t)[1..] == [x] + t && ([x] + t)[1..] == t;
  }

  /** Exchanging two neighbours with different keys is stable. */
  lemma SwapIsStable(s: seq<Record>, i: nat)
    requires i + 1 < |s| && s[i].key != s[i + 1].key
    ensures Stable(s, SwapAt(s, i))
  {
    SplitAt(s, i);
    forall k ensures WithKey(s, k) == WithKey(SwapAt(s, i), k) {
      WithKeyConcat(s[..i], [s[i], s[i + 1]] + s[i + 2..], k);
      WithKeyConcat(s[..i], [s[i + 1], s[i]] + s[i + 2..], k);
      WithKeyOfPair(s[i], s[i + 1], s[i + 2..], k);
    }
  }

  lemma BelowOfPair(x: Record, y: Record, t: seq<Record>, k: int)
    ensures Below([x, y] + t, k) == Below([y, x] + t, k)
  {
    BelowConcat([x, y], t, k);
    BelowConcat([y, x], t, k);
    assert [x, y][1..] == [y] && [y, x][1..] == [x];
  }

  lemma InversionsOfPair(x: Record, y: Record, t: seq<Record>)
    requires y.key < x.key
    ensures Inversions([x, y] + t) == Inversions([y, x] + t) + 1
  {
    assert ([x, y] + t)[1..] == [y] + t && ([y] + t)[1..] == t;
    assert ([y, x] + t)[1..] == [x] + t && ([x] + t)[1..] == t;
    BelowConcat([y], t, x.key);
    BelowConcat([x], t, y.key);
  }

  lemma {:induction false} InversionsAfter(p: seq<Record>, x: Record, y: Record, t: seq<Record>)
    requires y.key < x.key
    ensures Inversions(p + ([x, y] + t)) == Inversions(p + ([y, x] + t)) + 1
  {
    if p == [] {
      assert p + ([x, y] + t) == [x, y] + t && p + ([y, x] + t) == [y, x] + t;
      InversionsOfPair(x, y, t);
    } else {
      var q := p[1..];
      assert (p + ([x, y] + t))[1..] == q + ([x, y] + t);
      assert (p + ([y, x] + t))[1..] == q + ([y, x] + t);
      InversionsAfter(q, x, y, t);
      BelowConcat(q, [x, y] + t, p[0].key);
      BelowConcat(q, [y, x] + t, p[0].key);
      BelowOfPair(x, y, t, p[0].key);
    }
  }

  /** Exchanging two neighbours in the wrong order removes exactly one inversion. */
  lemma SwapRemovesOneInversion(s: seq<Record>, i: nat)
    requires i + 1 < |s| && s[i + 1].key < s[i].key
    ensures Inversions(s) == Inversions(SwapAt(s, i)) + 1
  {
    SplitAt(s, i);
    InversionsAfter(s[..i], s[i], s[i + 1], s[i + 2..]);
  }

  lemma {:induction false} NoneBelow(s: seq<Record>, k: int)
    requires forall x :: x in s ==> k <= x.key
    ensures Below(s, k) == 0
  {
    if s != [] { NoneBelow(s[1..], k); }
  }

  /** Sorted means no inversions. */
  lemma {:induction false} SortedHasNoInversions(s: seq<Record>)
    requires Sorted(s)
    ensures Inversions(s) == 0
  {
    if s != [] {
      forall x | x in s[1..] ensures s[0].key <= x.key {
        var i :| 0 <= i < |s[1..]| && s[1..][i] == x;
        assert s[i + 1] == x;
      }
      NoneBelow(s[1..], s[0].key);
      SortedHasNoInversions(s[1..]);
    }
  }

  // ------------------------------------------------------------ uniqueness

  lemma FirstWithKey(s: seq<Record>)
    requires s != []
    ensures WithKey(s, s[0].key) != [] && WithKey(s, s[0].key)[0] == s[0]
  {
  }

  /** If `s` is not empty, its stable sorted rearrangement `r` is not empty either, and the
      first key of `s` is at most the first key of `r`. */
  lemma StableSameHead(s: seq<Record>, r: seq<Record>)
    requires Sorted(s) && Sorted(r) && Stable(s, r) && s != []
    ensures r != [] && s[0].key <= r[0].key
  {
    FirstWithKey(s);
    assert WithKey(r, s[0].key) != [];
    FirstWithKey(r);
    assert WithKey(s, r[0].key) != [];
    assert WithKey(s, r[0].key)[0] in s;
  }

  lemma TailWithKey(s: seq<Record>, k: int)
    requires s != []
    ensures WithKey(s[1..], k) == if s[0].key == k then WithKey(s, k)[1..] else WithKey(s, k)
  {
    if s[0].key == k { assert ([s[0]] + WithKey(s[1..], k))[1..] == WithKey(s[1..], k); }
  }

  lemma StableTails(s: seq<Record>, r: seq<Record>)
    requires Stable(s, r) && s != [] && r != [] && s[0] == r[0]
    ensures Stable(s[1..], r[1..])
  {
    forall k ensures WithKey(s[1..], k) == WithKey(r[1..], k) {
      assert WithKey(s, k) == WithKey(r, k);
      TailWithKey(s, k);
      TailWithKey(r, k);
    }
  }

  /** A stable sorted rearrangement is unique. */
  lemma {:induction false} StableSortIsUnique(s: seq<Record>, r: seq<Record>)
    requires Sorted(s) && Sorted(r) && Stable(s, r)
    ensures s == r
  {
    if s == [] {
      if r != [] { StableSameHead(r, s); }
    } else {
      StableSameHead(s, r);
      StableSameHead(r, s);
      FirstWithKey(s);
      FirstWithKey(r);
      StableTails(s, r);
      StableSortIsUnique(s[1..], r[1..]);
      assert s == [s[0]] + s[1..] && r == [r[0]] + r[1..];
    }
  }

  /** Two sorts of the same input by stable algorithms give the same records. */
  lemma StableSortsAgree(input: seq<Record>, s: seq<Record>, r: seq<Record>)
    requires StableSortOf(input, s) && StableSortOf(input, r)
    ensures s == r
  {
    assert Stable(s, r);
    StableSortIsUnique(s, r);
  }

  /** Multiplicities can be read off the sequences of equal keys. */
  lemma {:induction false} CountWithKey(s: seq<Record>, x: Record)
    ensures multiset(s)[x] == multiset(WithKey(s, x.key))[x]
  {
    if s != [] {
      assert s == [s[0]] + s[1..];
      CountWithKey(s[1..], x);
    }
  }

  /** A stable rearrangement is a permutation. */
  lemma StableIsPermutation(s: seq<Record>, r: seq<Record>)
    requires Stable(s, r)
    ensures multiset(s) == multiset(r)
  {
    forall x: Record ensures multiset(s)[x] == multiset(r)[x] {
      CountWithKey(s, x);
      CountWithKey(r, x);
    }
  }

  /** Two sorted permutations show the same integers, stable or not. */
  lemma {:induction false} SortedPermutationsHaveEqualKeys(s: seq<Record>, r: seq<Record>)
    requires Sorted(s) && Sorted(r) && KeyMultiset(s) == KeyMultiset(r)
    ensures Keys(s) == Keys(r)
  {
    if s != [] && r != [] {
      KeyMembers(s);
      KeyMembers(r);
      assert s[0].key in KeyMultiset(s) && r[0].key in KeyMultiset(r);
      assert s[0].key == r[0].key;
      assert KeyMultiset(s[1..]) == KeyMultiset(s) - multiset{s[0].key};
      assert KeyMultiset(r[1..]) == KeyMultiset(r) - multiset{r[0].key};
      SortedPermutationsHaveEqualKeys(s[1..], r[1..]);
    }
  }

  ghost function KeyMultiset(s: seq<Record>): (m: multiset<int>)
    ensures |m| == |s|
  {
    if s == [] then multiset{} else multiset{s[0].key} + KeyMultiset(s[1..])
  }

  lemma {:induction false} KeyMembers(s: seq<Record>)
    ensures forall k :: k in KeyMultiset(s) <==> exists i :: 0 <= i < |s| && s[i].key == k
  {
    if s != [] {
      KeyMembers(s[1..]);
      forall k | exists i :: 0 <= i < |s| && s[i].key == k ensures k in KeyMultiset(s) {
        var i :| 0 <= i < |s| && s[i].key == k;
        if i > 0 { assert s[1..][i - 1].key == k; }
      }
    }
  }

  lemma {:induction false} KeyMultisetConcat(s: seq<Record>, t: seq<Record>)
    ensures KeyMultiset(s + t) == KeyMultiset(s) + KeyMultiset(t)
  {
    if s == [] {
      assert s + t == t;
    } else {
      assert (s + t)[1..] == s[1..] + t;
      KeyMultisetConcat(s[1..], t);
    }
  }

  lemma RemoveAt(s: seq<Record>, i: nat) returns (rest: seq<Record>)
    requires i < |s|
    ensures multiset(s) == multiset{s[i]} + multiset(rest)
    ensures KeyMultiset(s) == multiset{s[i].key} + KeyMultiset(rest)
  {
    var p, q := s[..i], s[i + 1..];
    rest := p + q;
    assert s == p + s[i..] && s[i..] == [s[i]] + q && s[i..][1..] == q;
    KeyMultisetConcat(p, s[i..]);
    KeyMultisetConcat(p, q);
  }

  lemma IndexOf(s: seq<Record>, x: Record) returns (i: nat)
    requires x in multiset(s)
    ensures i < |s| && s[i] == x
  {
    i :| i < |s| && s[i] == x;
  }

  lemma CancelOne(x: Record, m: multiset<Record>, n: multiset<Record>)
    requires multiset{x} + m == multiset{x} + n
    ensures m == n
  {
    assert m == (multiset{x} + m) - multiset{x} && n == (multiset{x} + n) - multiset{x};
  }

  /** Take the first record of `s` out of its permutation `r`. */
  lemma TakeOut(s: seq<Record>, r: seq<Record>) returns (rest: seq<Record>)
    requires s != [] && multiset(s) == multiset(r)
    ensures multiset(s[1..]) == multiset(rest)
    ensures KeyMultiset(r) == multiset{s[0].key} + KeyMultiset(rest)
  {
    assert s[0] in multiset(s);
    var i := IndexOf(r, s[0]);
    rest := RemoveAt(r, i);
    assert s == [s[0]] + s[1..];
    CancelOne(s[0], multiset(s[1..]), multiset(rest));
  }

  /** Permutations have the same integers. */
  lemma {:induction false} PermutationKeys(s: seq<Record>, r: seq<Record>)
    requires multiset(s) == multiset(r)
    ensures KeyMultiset(s) == KeyMultiset(r)
  {
    assert |s| == |multiset(s)| == |multiset(r)| == |r|;
    if s != [] {
      var rest := TakeOut(s, r);
      PermutationKeys(s[1..], rest);
    }
  }

  /** Every two sorts of the same input show the same integers. */
  lemma SortsShowSameKeys(input: seq<Record>, s: seq<Record>, r: seq<Record>)
    requires SortOf(input, s) && SortOf(input, r)
    ensures Keys(s) == Keys(r)
  {
    PermutationKeys(s, r);
    SortedPermutationsHaveEqualKeys(s, r);
  }
}
