/**
What the shared map says about the packets themselves. Every packet whose lookup was taken
is, in each of the two fields, stored, refused for lack of room, or still on its way.
*/
module XdpLedger {
  import Xdp = XdpDropIcmp
  import opened SharedCounter
  import opened XdpConcurrent

  /** The two fields of an entry. */
  datatype Field = DropBytes | DropCounts

  ghost function LogOf(s: State, f: Field): Log {
    if f == DropBytes then s.bytesLog else s.countLog
  }

  ghost function FieldAt(m: Xdp.Entries, k: Xdp.Key, f: Field): int {
    if f == DropBytes then BytesAt(m, k) else CountAt(m, k)
  }

  /** What a packet is worth in a field. */
  ghost function Worth(b: PacketSize, f: Field): nat {
    if f == DropBytes then b else 1
  }

  /** What the packet in hand still has to add to the field of `k`. */
  ghost function Owed(l: Local, k: Xdp.Key, f: Field): nat {
    match l
    case Idle => 0
    case Missing(j, b) => if j == k then Worth(b, f) else 0
    case Found(j, b) => if j == k then Worth(b, f) else 0
    case BytesLoaded(j, b, _) => if j == k then Worth(b, f) else 0
    case BytesStored(j) => if j == k && f == DropCounts then 1 else 0
    case CountLoaded(j, _) => if j == k && f == DropCounts then 1 else 0
  }

  /** A packet of `k` arrives at an idle CPU. */
  ghost function TakenNow(s: State, a: Action, k: Xdp.Key, f: Field): nat {
    if a.Lookup? && a.key == k && LocalOf(s, a.cpu) == Idle then Worth(a.bytes, f) else 0
  }

  /** An insertion of `k` finds no room. */
  ghost function RefusedNow(s: State, a: Action, k: Xdp.Key, f: Field): nat {
    var l := LocalOf(s, a.cpu);
    if a.Insert? && l.Missing? && l.key == k && k !in s.entries && |s.entries| >= Xdp.MAX_ENTRIES
    then Worth(l.bytes, f) else 0
  }

  /** All packets of `k` a run has taken. */
  ghost function Taken(init: Xdp.Entries, acts: seq<Action>, k: Xdp.Key, f: Field): nat {
    if acts == [] then 0
    else
      var front := acts[..|acts| - 1];
      Taken(init, front, k, f) + TakenNow(Run(init, front), acts[|acts| - 1], k, f)
  }

  ghost function Refused(init: Xdp.Entries, acts: seq<Action>, k: Xdp.Key, f: Field): nat {
    if acts == [] then 0
    else
      var front := acts[..|acts| - 1];
      Refused(init, front, k, f) + RefusedNow(Run(init, front), acts[|acts| - 1], k, f)
  }

  // ------------------------------------------------------------ one step

  /** From `s` to `s'` what CPU `c` owes and what is stored change by `more`. */
  ghost predicate Moves(s: State, s': State, c: nat, k: Xdp.Key, f: Field, more: int) {
    Total(LogOf(s', f), k) + Owed(LocalOf(s', c), k, f) == Total(LogOf(s, f), k) + Owed(LocalOf(s, c), k, f) + more
  }

  /** A load stores nothing. */
  lemma LoadMoves(s: State, s': State, c: nat, j: Xdp.Key, k: Xdp.Key, f: Field, more: int)
    requires LogOf(s', f) == LogOf(s, f) || LogOf(s', f) == LogOf(s, f) + [Load(c, j)]
    requires Owed(LocalOf(s', c), k, f) == Owed(LocalOf(s, c), k, f) + more
    ensures Moves(s, s', c, k, f, more)
  {
    TotalConcat(LogOf(s, f), Load(c, j), k);
  }

  /** A store stores what was owed. */
  lemma StoreMoves(s: State, s': State, c: nat, j: Xdp.Key, amount: nat, k: Xdp.Key, f: Field)
    requires LogOf(s', f) == LogOf(s, f) + [Store(c, j, amount)]
    requires Owed(LocalOf(s, c), k, f) == Owed(LocalOf(s', c), k, f) + if j == k then amount else 0
    ensures Moves(s, s', c, k, f, 0)
  {
    TotalConcat(LogOf(s, f), Store(c, j, amount), k);
  }

  lemma LookupMoves(s: State, c: nat, j: Xdp.Key, b: PacketSize, k: Xdp.Key, f: Field)
    requires LocalOf(s, c) == Idle
    ensures Moves(s, DoLookup(s, c, j, b), c, k, f, if j == k then Worth(b, f) else 0)
  {
    var s' := DoLookup(s, c, j, b);
    assert LocalOf(s', c) == if j in s.entries then Found(j, b) else Missing(j, b);
    LoadMoves(s, s', c, j, k, f, if j == k then Worth(b, f) else 0);
  }

  lemma InsertMoves(s: State, c: nat, j: Xdp.Key, b: PacketSize, k: Xdp.Key, f: Field)
    requires LocalOf(s, c) == Missing(j, b)
    ensures Moves(s, DoInsert(s, c, j, b), c, k, f, 0 - RefusedNow(s, Insert(c), k, f))
  {
    var s' := DoInsert(s, c, j, b);
    assert LocalOf(s', c) == Idle;
    if j in s.entries || |s.entries| < Xdp.MAX_ENTRIES {
      StoreMoves(s, s', c, j, Worth(b, f), k, f);
    }
  }

  lemma LoadBytesMoves(s: State, c: nat, j: Xdp.Key, b: PacketSize, k: Xdp.Key, f: Field)
    requires LocalOf(s, c) == Found(j, b) && j in s.entries
    ensures Moves(s, DoLoadBytes(s, c, j, b), c, k, f, 0)
  {
    var s' := DoLoadBytes(s, c, j, b);
    assert LocalOf(s', c) == BytesLoaded(j, b, s.entries[j].dropBytes);
    LoadMoves(s, s', c, j, k, f, 0);
  }

  lemma StoreBytesMoves(s: State, c: nat, j: Xdp.Key, b: PacketSize, v: int, k: Xdp.Key, f: Field)
    requires LocalOf(s, c) == BytesLoaded(j, b, v) && j in s.entries
    ensures Moves(s, DoStoreBytes(s, c, j, b, v), c, k, f, 0)
  {
    var s' := DoStoreBytes(s, c, j, b, v);
    assert LocalOf(s', c) == BytesStored(j);
    if f == DropBytes { StoreMoves(s, s', c, j, b, k, f); }
  }

  lemma LoadCountMoves(s: State, c: nat, j: Xdp.Key, k: Xdp.Key, f: Field)
    requires LocalOf(s, c) == BytesStored(j) && j in s.entries
    ensures Moves(s, DoLoadCount(s, c, j), c, k, f, 0)
  {
    var s' := DoLoadCount(s, c, j);
    assert LocalOf(s', c) == CountLoaded(j, s.entries[j].dropCounts);
    LoadMoves(s, s', c, j, k, f, 0);
  }

  lemma StoreCountMoves(s: State, c: nat, j: Xdp.Key, v: int, k: Xdp.Key, f: Field)
    requires LocalOf(s, c) == CountLoaded(j, v) && j in s.entries
    ensures Moves(s, DoStoreCount(s, c, j, v), c, k, f, 0)
  {
    var s' := DoStoreCount(s, c, j, v);
    assert LocalOf(s', c) == Idle;
    if f == DropCounts { StoreMoves(s, s', c, j, 1, k, f); }
  }

  lemma AddBytesMoves(s: State, c: nat, j: Xdp.Key, b: PacketSize, k: Xdp.Key, f: Field)
    requires LocalOf(s, c) == Found(j, b) && j in s.entries
    ensures Moves(s, DoStoreBytes(DoLoadBytes(s, c, j, b), c, j, b, s.entries[j].dropBytes), c, k, f, 0)
  {
    LoadBytesMoves(s, c, j, b, k, f);
    StoreBytesMoves(DoLoadBytes(s, c, j, b), c, j, b, s.entries[j].dropBytes, k, f);
  }

  lemma AddCountMoves(s: State, c: nat, j: Xdp.Key, k: Xdp.Key, f: Field)
    requires LocalOf(s, c) == BytesStored(j) && j in s.entries
    ensures Moves(s, DoStoreCount(DoLoadCount(s, c, j), c, j, s.entries[j].dropCounts), c, k, f, 0)
  {
    LoadCountMoves(s, c, j, k, f);
    StoreCountMoves(DoLoadCount(s, c, j), c, j, s.entries[j].dropCounts, k, f);
  }

  /** A step moves a packet's worth from taken to owed, and from owed to stored or refused. */
  lemma StepMoves(s: State, a: Action, k: Xdp.Key, f: Field)
    ensures Moves(s, Step(s, a), a.cpu, k, f, TakenNow(s, a, k, f) - RefusedNow(s, a, k, f))
  {
    var c := a.cpu;
    match (a, LocalOf(s, c))
    case (Lookup(_, j, b), Idle) => LookupMoves(s, c, j, b, k, f);
    case (Insert(_), Missing(j, b)) => InsertMoves(s, c, j, b, k, f);
    case (LoadBytes(_), Found(j, b)) => if j in s.entries { LoadBytesMoves(s, c, j, b, k, f); }
    case (StoreBytes(_), BytesLoaded(j, b, v)) => if j in s.entries { StoreBytesMoves(s, c, j, b, v, k, f); }
    case (LoadCount(_), BytesStored(j)) => if j in s.entries { LoadCountMoves(s, c, j, k, f); }
    case (StoreCount(_), CountLoaded(j, v)) => if j in s.entries { StoreCountMoves(s, c, j, v, k, f); }
    case (AddBytes(_), Found(j, b)) => if j in s.entries { AddBytesMoves(s, c, j, b, k, f); }
    case (AddCount(_), BytesStored(j)) => if j in s.entries { AddCountMoves(s, c, j, k, f); }
    case _ =>
  }

  lemma OthersUnchanged(s: State, a: Action)
    ensures forall d :: d != a.cpu ==> LocalOf(Step(s, a), d) == LocalOf(s, d)
  {
  }

  // ------------------------------------------------------------ all CPUs

  /** What the first `n` CPUs owe together. */
  ghost function OwedByAll(s: State, n: nat, k: Xdp.Key, f: Field): nat {
    if n == 0 then 0 else OwedByAll(s, n - 1, k, f) + Owed(LocalOf(s, n - 1), k, f)
  }

  lemma {:induction false} OneCpuChanges(s: State, s': State, c: nat, n: nat, k: Xdp.Key, f: Field)
    requires forall d :: d != c ==> LocalOf(s', d) == LocalOf(s, d)
    ensures OwedByAll(s', n, k, f) - OwedByAll(s, n, k, f) ==
            if c < n then Owed(LocalOf(s', c), k, f) - Owed(LocalOf(s, c), k, f) else 0
  {
    if n > 0 { OneCpuChanges(s, s', c, n - 1, k, f); }
  }

  lemma {:induction false} NobodyOwes(s: State, n: nat, k: Xdp.Key, f: Field)
    requires forall c :: 0 <= c < n ==> LocalOf(s, c) == Idle
    ensures OwedByAll(s, n, k, f) == 0
  {
    if n > 0 { NobodyOwes(s, n - 1, k, f); }
  }

  /** The books balance after every run, whatever is still on its way. */
  lemma {:induction false} BooksBalance(init: Xdp.Entries, acts: seq<Action>, n: nat, k: Xdp.Key, f: Field)
    requires forall i :: 0 <= i < |acts| ==> acts[i].cpu < n
    ensures var s := Run(init, acts);
            Taken(init, acts, k, f) == Total(LogOf(s, f), k) + Refused(init, acts, k, f) + OwedByAll(s, n, k, f)
  {
    if acts == [] {
      NobodyOwes(Start(init), n, k, f);
    } else {
      var front, a := acts[..|acts| - 1], acts[|acts| - 1];
      BooksBalance(init, front, n, k, f);
      StepMoves(Run(init, front), a, k, f);
      OthersUnchanged(Run(init, front), a);
      OneCpuChanges(Run(init, front), Run(init, acts), a.cpu, n, k, f);
    }
  }

  /** No CPU of the run has this number or a greater one. */
  ghost function CpuBound(acts: seq<Action>): (n: nat)
    ensures forall i :: 0 <= i < |acts| ==> acts[i].cpu < n
  {
    if acts == [] then 0
    else
      var m := |acts| - 1;
      var n := CpuBound(acts[..m]);
      assert forall i :: 0 <= i < m ==> acts[i] == acts[..m][i];
      if n <= acts[m].cpu then acts[m].cpu + 1 else n
  }

  /** What all CPUs owe after a run. */
  ghost function OnTheWay(init: Xdp.Entries, acts: seq<Action>, k: Xdp.Key, f: Field): nat {
    OwedByAll(Run(init, acts), CpuBound(acts), k, f)
  }

  // ------------------------------------------------------------ refused keys

  /** Only stored keys have stores, and a key once refused never gets in. */
  ghost predicate Decided(init: Xdp.Entries, acts: seq<Action>, k: Xdp.Key, f: Field) {
    var s := Run(init, acts);
    && (Total(LogOf(s, f), k) != 0 ==> k in s.entries)
    && (Refused(init, acts, k, f) != 0 ==> k !in s.entries && |s.entries| >= Xdp.MAX_ENTRIES)
  }

  lemma StepAdmits(s: State, a: Action)
    ensures var s' := Step(s, a);
            && s.entries.Keys <= s'.entries.Keys
            && (|s.entries| >= Xdp.MAX_ENTRIES ==> s'.entries.Keys == s.entries.Keys)
  {
  }

  /** A store to `k` leaves `k` in the map. */
  lemma StoreAdmits(s: State, a: Action, k: Xdp.Key, f: Field)
    ensures Total(LogOf(Step(s, a), f), k) != Total(LogOf(s, f), k) ==> k in Step(s, a).entries
  {
    StepMoves(s, a, k, f);
  }

  lemma {:induction false} RunDecides(init: Xdp.Entries, acts: seq<Action>, k: Xdp.Key, f: Field)
    ensures Decided(init, acts, k, f)
  {
    if acts != [] {
      var front, a := acts[..|acts| - 1], acts[|acts| - 1];
      var s, s' := Run(init, front), Run(init, acts);
      RunDecides(init, front, k, f);
      StepAdmits(s, a);
      StoreAdmits(s, a, k, f);
      if |s.entries| >= Xdp.MAX_ENTRIES { assert |s'.entries| == |s'.entries.Keys| == |s.entries.Keys|; }
    }
  }

  lemma {:induction false} NoInsertionsNoRefusals(init: Xdp.Entries, acts: seq<Action>, k: Xdp.Key, f: Field)
    requires forall i :: 0 <= i < |acts| ==> !acts[i].Insert?
    ensures Refused(init, acts, k, f) == 0
  {
    if acts != [] { NoInsertionsNoRefusals(init, acts[..|acts| - 1], k, f); }
  }

  // ------------------------------------------------------------ the theorems

  /** After every run each packet taken is stored, refused or on its way. A key is refused
      always or never: no packet of a key in the map was refused, none of any other is
      stored. */
  lemma EveryPacketIsAccounted(init: Xdp.Entries, acts: seq<Action>, k: Xdp.Key, f: Field)
    ensures var s, taken := Run(init, acts), Taken(init, acts, k, f);
            && taken == Total(LogOf(s, f), k) + Refused(init, acts, k, f) + OnTheWay(init, acts, k, f)
            && (k in s.entries ==> Refused(init, acts, k, f) == 0)
            && (k !in s.entries ==> Total(LogOf(s, f), k) == 0)
            && (AllIdle(s) ==> OnTheWay(init, acts, k, f) == 0)
  {
    var s, n := Run(init, acts), CpuBound(acts);
    BooksBalance(init, acts, n, k, f);
    RunDecides(init, acts, k, f);
    if AllIdle(s) { NobodyOwes(s, n, k, f); }
  }

  /** When all CPUs are done, a field of an entry is at most what it started with plus all
      packets of its key, and exactly that if and only if no store to it came between another
      CPU's load and store. */
  lemma PacketsExactIffNoOverlap(init: Xdp.Entries, acts: seq<Action>, k: Xdp.Key, f: Field)
    requires AllIdle(Run(init, acts)) && k in Run(init, acts).entries
    ensures var s, due := Run(init, acts), FieldAt(init, k, f) + Taken(init, acts, k, f);
            && FieldAt(s.entries, k, f) <= due
            && (FieldAt(s.entries, k, f) == due <==> !Overlap(LogOf(s, f), k))
  {
    EveryPacketIsAccounted(init, acts, k, f);
    StoredNeverExceedsTotals(init, acts, k);
    StoredExactIffNoOverlap(init, acts, k);
  }

  /** With existing entries and atomic updates every interleaving is exact: at any time each
      field lacks what is still on its way, and when all CPUs are done it lacks nothing. */
  lemma AtomicRunsAreExact(init: Xdp.Entries, acts: seq<Action>, k: Xdp.Key, f: Field)
    requires AtomicOnKnownKeys(init, acts)
    ensures var s, due := Run(init, acts), FieldAt(init, k, f) + Taken(init, acts, k, f);
            && FieldAt(s.entries, k, f) + OnTheWay(init, acts, k, f) == due
            && (AllIdle(s) ==> FieldAt(s.entries, k, f) == due)
  {
    var s := Run(init, acts);
    AtomicLogs(init, acts);
    AtomicHasNoOverlap(LogOf(s, f), k);
    StoredExactIffNoOverlap(init, acts, k);
    EveryPacketIsAccounted(init, acts, k, f);
    NoInsertionsNoRefusals(init, acts, k, f);
  }
}
