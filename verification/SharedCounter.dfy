/**
Counters that several CPUs update by a plain load, add and store. Everything is derived
from the log of accesses to one field, in the order in which memory served them.
*/
module SharedCounter {
  import opened XdpDropIcmp

  datatype Access =
    | Load(cpu: nat, key: Key)
    | Store(cpu: nat, key: Key, amount: nat)

  type Log = seq<Access>
  type Base = map<Key, int>

  function At(base: Base, k: Key): int {
    if k in base then base[k] else 0
  }

  // ------------------------------------------------------------ what memory holds

  /** The counter of `k` after the log: the last store put there what its CPU had loaded,
      plus the amount. */
  ghost function Cell(base: Base, log: Log, k: Key): int
    decreases |log|
  {
    if log == [] then At(base, k)
    else
      var n := |log| - 1;
      if log[n].Store? && log[n].key == k
      then Loaded(base, log[..n], log[n].cpu) + log[n].amount
      else Cell(base, log[..n], k)
  }

  /** What CPU `c` loaded last. */
  ghost function Loaded(base: Base, log: Log, c: nat): int
    decreases |log|
  {
    if log == [] then 0
    else
      var n := |log| - 1;
      if log[n].Load? && log[n].cpu == c
      then Cell(base, log[..n], log[n].key)
      else Loaded(base, log[..n], c)
  }

  /** What all stores to `k` were meant to add. */
  ghost function Total(log: Log, k: Key): nat {
    if log == [] then 0
    else
      var n := |log| - 1;
      Total(log[..n], k) + if log[n].Store? && log[n].key == k then log[n].amount else 0
  }

  lemma TotalConcat(log: Log, a: Access, k: Key)
    ensures Total(log + [a], k) == Total(log, k) + if a.Store? && a.key == k then a.amount else 0
  {
    assert (log + [a])[..|log|] == log;
  }

  // ------------------------------------------------------------ program order

  /** The index of the last access of CPU `c`, or -1. */
  ghost function LastOf(log: Log, c: nat): (i: int)
    ensures -1 <= i < |log|
    ensures i >= 0 ==> log[i].cpu == c
  {
    if log == [] then -1
    else if log[|log| - 1].cpu == c then |log| - 1
    else LastOf(log[..|log| - 1], c)
  }

  /** CPU `c` has loaded `k` and has accessed nothing since. */
  ghost predicate Pending(log: Log, c: nat, k: Key) {
    LastOf(log, c) >= 0 && log[LastOf(log, c)] == Load(c, k)
  }

  /** Every CPU stores to what it has just loaded. */
  ghost predicate WellFormed(log: Log) {
    forall m :: 0 <= m < |log| && log[m].Store? ==> Pending(log[..m], log[m].cpu, log[m].key)
  }

  ghost predicate StoresTo(log: Log, j: nat, k: Key)
    requires j < |log|
  {
    log[j].Store? && log[j].key == k
  }

  /** Between the store at `m` and the load it belongs to, the last access of its CPU before,
      another store to the same key took place, at `j`. */
  ghost predicate OverlapAt(log: Log, k: Key, j: nat, m: nat) {
    && j < m < |log| && StoresTo(log, m, k) && StoresTo(log, j, k)
    && LastOf(log[..m], log[m].cpu) < j
  }

  ghost predicate Overlap(log: Log, k: Key) {
    exists j: nat, m: nat :: OverlapAt(log, k, j, m)
  }

  // ------------------------------------------------------------ lemmas

  lemma {:induction false} LoadedWhen(base: Base, log: Log, c: nat, k: Key)
    requires Pending(log, c, k)
    ensures Loaded(base, log, c) == Cell(base, log[..LastOf(log, c)], k)
  {
    var n := |log| - 1;
    if log[n].cpu != c {
      var l := log[..n];
      LoadedWhen(base, l, c, k);
      assert l[..LastOf(l, c)] == log[..LastOf(log, c)];
    }
  }

  /** Without a store to `k` from `i` on, neither the counter nor the total changes. */
  lemma {:induction false} QuietSuffix(base: Base, log: Log, i: nat, k: Key)
    requires i <= |log| && forall j :: i <= j < |log| ==> !StoresTo(log, j, k)
    ensures Cell(base, log, k) == Cell(base, log[..i], k)
    ensures Total(log, k) == Total(log[..i], k)
    decreases |log|
  {
    if i < |log| {
      var l := log[..|log| - 1];
      assert forall j :: 0 <= j < |l| ==> StoresTo(l, j, k) == StoresTo(log, j, k);
      assert !StoresTo(log, |log| - 1, k);
      QuietSuffix(base, l, i, k);
      assert l[..i] == log[..i];
    } else {
      assert log[..i] == log;
    }
  }

  lemma {:induction false} TotalGrows(log: Log, i: nat, k: Key)
    requires i <= |log|
    ensures Total(log[..i], k) <= Total(log, k)
    decreases |log|
  {
    if i < |log| {
      var l := log[..|log| - 1];
      TotalGrows(l, i, k);
      assert l[..i] == log[..i];
    } else {
      assert log[..i] == log;
    }
  }

  lemma TotalStep(log: Log, j: nat, k: Key)
    requires j < |log| && StoresTo(log, j, k)
    ensures Total(log[..j + 1], k) == Total(log[..j], k) + log[j].amount
  {
    assert log[..j + 1][..j] == log[..j];
  }

  /** A store to `k` at `j` shows in the total. */
  lemma BusySuffix(log: Log, i: nat, j: nat, k: Key)
    requires i <= j < |log| && StoresTo(log, j, k) && log[j].amount > 0
    ensures Total(log[..i], k) < Total(log, k)
  {
    TotalGrows(log[..j], i, k);
    assert log[..j][..i] == log[..i];
    TotalStep(log, j, k);
    TotalGrows(log, j + 1, k);
  }

  lemma PrefixWellFormed(log: Log, i: nat)
    requires WellFormed(log) && i <= |log|
    ensures WellFormed(log[..i])
  {
    forall m | 0 <= m < i && log[..i][m].Store?
      ensures Pending(log[..i][..m], log[..i][m].cpu, log[..i][m].key)
    {
      assert log[..i][..m] == log[..m];
    }
  }

  /** Lost updates only ever lower a counter: it never exceeds what was to be added. */
  lemma {:induction false} NeverExceeds(base: Base, log: Log, k: Key)
    requires WellFormed(log)
    ensures Cell(base, log, k) <= At(base, k) + Total(log, k)
    decreases |log|
  {
    if log != [] {
      var n := |log| - 1;
      var l := log[..n];
      PrefixWellFormed(log, n);
      if StoresTo(log, n, k) {
        assert Pending(l, log[n].cpu, k);
        var i := LastOf(l, log[n].cpu);
        LoadedWhen(base, l, log[n].cpu, k);
        PrefixWellFormed(l, i);
        NeverExceeds(base, l[..i], k);
        TotalGrows(l, i, k);
      } else {
        NeverExceeds(base, l, k);
      }
    }
  }

  ghost predicate PositiveAmounts(log: Log) {
    forall j :: 0 <= j < |log| && log[j].Store? ==> log[j].amount > 0
  }

  lemma OverlapOfPrefix(log: Log, n: nat, k: Key)
    requires n + 1 == |log|
    ensures Overlap(log, k) <==>
            Overlap(log[..n], k) || exists j: nat :: OverlapAt(log, k, j, n)
  {
    var l := log[..n];
    forall j: nat, m: nat | m < n ensures OverlapAt(l, k, j, m) == OverlapAt(log, k, j, m) {
      assert l[..m] == log[..m];
    }
  }

  /** The last access is a store to `k`: what it does to the difference. */
  lemma LastStore(base: Base, log: Log, k: Key)
    requires log != [] && WellFormed(log) && PositiveAmounts(log) && StoresTo(log, |log| - 1, k)
    ensures var n := |log| - 1;
            if exists j: nat :: OverlapAt(log, k, j, n)
            then Cell(base, log, k) < At(base, k) + Total(log, k)
            else Cell(base, log, k) - Total(log, k) == Cell(base, log[..n], k) - Total(log[..n], k)
  {
    var n := |log| - 1;
    var l := log[..n];
    var i := LastOf(l, log[n].cpu);
    assert Pending(l, log[n].cpu, k);
    LoadedWhen(base, l, log[n].cpu, k);
    if exists j: nat :: OverlapAt(log, k, j, n) {
      var j: nat :| OverlapAt(log, k, j, n);
      assert StoresTo(l, j, k) && l[j].amount > 0;
      BusySuffix(l, i, j, k);
      PrefixWellFormed(log, n);
      PrefixWellFormed(l, i);
      NeverExceeds(base, l[..i], k);
    } else {
      forall j | i <= j < n ensures !StoresTo(l, j, k) {
        assert j == i || !OverlapAt(log, k, j, n);
      }
      QuietSuffix(base, l, i, k);
    }
  }

  /** A counter is exact if and only if no store to its key came between a CPU's load and
      store of it. */
  lemma {:induction false} ExactIffNoOverlap(base: Base, log: Log, k: Key)
    requires WellFormed(log) && PositiveAmounts(log)
    ensures Cell(base, log, k) == At(base, k) + Total(log, k) <==> !Overlap(log, k)
    decreases |log|
  {
    if log != [] {
      var n := |log| - 1;
      var l := log[..n];
      PrefixWellFormed(log, n);
      ExactIffNoOverlap(base, l, k);
      OverlapOfPrefix(log, n, k);
      if StoresTo(log, n, k) { LastStore(base, log, k); }
    }
  }

  // ------------------------------------------------------------ atomic updates

  /** Every store follows its load at once. */
  ghost predicate Atomic(log: Log) {
    forall m :: 0 <= m < |log| && log[m].Store? ==> m > 0 && log[m - 1] == Load(log[m].cpu, log[m].key)
  }

  /** Atomic updates lose nothing. */
  lemma AtomicHasNoOverlap(log: Log, k: Key)
    requires Atomic(log)
    ensures WellFormed(log) && !Overlap(log, k)
  {
    forall m | 0 <= m < |log| && log[m].Store?
      ensures LastOf(log[..m], log[m].cpu) == m - 1 && Pending(log[..m], log[m].cpu, log[m].key)
    {
      assert log[..m][m - 1] == Load(log[m].cpu, log[m].key);
    }
  }
}
