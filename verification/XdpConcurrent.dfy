/**
Any number of CPUs running the XDP program on one shared map. Lookups and insertions are
atomic; the two in-place updates are a load and a store each, and anything may happen in
between. Values live in a stable cell per key.
*/
module XdpConcurrent {
  import opened XdpDropIcmp
  import opened SharedCounter

  /** Only packets with an Ethernet and an IP header get as far as the accounting. */
  type PacketSize = n: nat | n >= ETH_HEADER + IP_HEADER witness ETH_HEADER + IP_HEADER

  /** How far a CPU has got with its packet. */
  datatype Local =
    | Idle
    | Missing(key: Key, bytes: PacketSize)                // the lookup returned NULL
    | Found(key: Key, bytes: PacketSize)                  // the lookup returned a pointer
    | BytesLoaded(key: Key, bytes: PacketSize, v: int)    // inside drop_bytes += bytes
    | BytesStored(key: Key)
    | CountLoaded(key: Key, v: int)                       // inside drop_counts++

  /** `bytesLog` and `countLog` record the accesses to the two fields; a lookup that finds
      nothing counts as a load, an insertion as a store. */
  datatype State = State(
    init: Entries, entries: Entries, cpus: map<nat, Local>, bytesLog: Log, countLog: Log)

  /** What CPU `cpu` may do next. AddBytes and AddCount are the updates as
      __sync_fetch_and_add would do them. */
  datatype Action =
    | Lookup(cpu: nat, key: Key, bytes: PacketSize)
    | Insert(cpu: nat)
    | LoadBytes(cpu: nat)
    | StoreBytes(cpu: nat)
    | LoadCount(cpu: nat)
    | StoreCount(cpu: nat)
    | AddBytes(cpu: nat)
    | AddCount(cpu: nat)

  ghost function LocalOf(s: State, c: nat): Local {
    if c in s.cpus then s.cpus[c] else Idle
  }

  ghost function GoTo(s: State, c: nat, l: Local): State {
    s.(cpus := s.cpus[c := l])
  }

  ghost function SetBytes(m: Entries, k: Key, v: int): Entries
    requires k in m
  {
    m[k := Value(v, m[k].dropCounts)]
  }

  ghost function SetCount(m: Entries, k: Key, v: int): Entries
    requires k in m
  {
    m[k := Value(m[k].dropBytes, v)]
  }

  ghost function DoLookup(s: State, c: nat, k: Key, b: PacketSize): State {
    if k in s.entries then GoTo(s, c, Found(k, b))
    else GoTo(s, c, Missing(k, b)).(bytesLog := s.bytesLog + [Load(c, k)], countLog := s.countLog + [Load(c, k)])
  }

  /** bpf_map_update_elem with BPF_ANY replaces an entry that has appeared meanwhile. */
  ghost function DoInsert(s: State, c: nat, k: Key, b: PacketSize): State {
    if k in s.entries || |s.entries| < MAX_ENTRIES then
      GoTo(s, c, Idle).(entries := s.entries[k := Value(b, 1)],
        bytesLog := s.bytesLog + [Store(c, k, b)], countLog := s.countLog + [Store(c, k, 1)])
    else
      GoTo(s, c, Idle)
  }

  ghost function DoLoadBytes(s: State, c: nat, k: Key, b: PacketSize): State
    requires k in s.entries
  {
    GoTo(s, c, BytesLoaded(k, b, s.entries[k].dropBytes)).(bytesLog := s.bytesLog + [Load(c, k)])
  }

  ghost function DoStoreBytes(s: State, c: nat, k: Key, b: PacketSize, v: int): State
    requires k in s.entries
  {
    GoTo(s, c, BytesStored(k)).(entries := SetBytes(s.entries, k, v + b), bytesLog := s.bytesLog + [Store(c, k, b)])
  }

  ghost function DoLoadCount(s: State, c: nat, k: Key): State
    requires k in s.entries
  {
    GoTo(s, c, CountLoaded(k, s.entries[k].dropCounts)).(countLog := s.countLog + [Load(c, k)])
  }

  ghost function DoStoreCount(s: State, c: nat, k: Key, v: int): State
    requires k in s.entries
  {
    GoTo(s, c, Idle).(entries := SetCount(s.entries, k, v + 1), countLog := s.countLog + [Store(c, k, 1)])
  }

  /** One step of one CPU; an action that is not that CPU's turn changes nothing. The atomic
      updates are a load and a store with nothing in between. */
  ghost function Step(s: State, a: Action): State {
    var c := a.cpu;
    match (a, LocalOf(s, c))
    case (Lookup(_, k, b), Idle) => DoLookup(s, c, k, b)
    case (Insert(_), Missing(k, b)) => DoInsert(s, c, k, b)
    case (LoadBytes(_), Found(k, b)) => if k in s.entries then DoLoadBytes(s, c, k, b) else s
    case (StoreBytes(_), BytesLoaded(k, b, v)) => if k in s.entries then DoStoreBytes(s, c, k, b, v) else s
    case (LoadCount(_), BytesStored(k)) => if k in s.entries then DoLoadCount(s, c, k) else s
    case (StoreCount(_), CountLoaded(k, v)) => if k in s.entries then DoStoreCount(s, c, k, v) else s
    case (AddBytes(_), Found(k, b)) =>
      if k in s.entries then DoStoreBytes(DoLoadBytes(s, c, k, b), c, k, b, s.entries[k].dropBytes) else s
    case (AddCount(_), BytesStored(k)) =>
      if k in s.entries then DoStoreCount(DoLoadCount(s, c, k), c, k, s.entries[k].dropCounts) else s
    case _ => s
  }

  ghost function StepAll(s: State, acts: seq<Action>): State {
    if acts == [] then s else Step(StepAll(s, acts[..|acts| - 1]), acts[|acts| - 1])
  }

  ghost function Start(init: Entries): State {
    State(init, init, map[], [], [])
  }

  /** Any interleaving: the CPUs' steps in any order, from any map. */
  ghost function Run(init: Entries, acts: seq<Action>): State {
    StepAll(Start(init), acts)
  }

  // ------------------------------------------------------------ what each step does

  /** A packet that arrives at an idle CPU is looked up. */
  lemma LookupEffect(s: State, c: nat, k: Key, b: PacketSize)
    requires LocalOf(s, c) == Idle
    ensures var s' := Step(s, Lookup(c, k, b));
            s'.entries == s.entries && LocalOf(s', c) == if k in s.entries then Found(k, b) else Missing(k, b)
  {
  }

  /** The steps of a CPU on its way, whatever the others have done meanwhile: an insertion puts
      the first values in place if there is room for 256 entries, a store puts the value loaded
      plus the amount in place of whatever is there, and an atomic update adds to it. */
  lemma StepEffects(s: State, c: nat)
    ensures match LocalOf(s, c)
            case Idle => true
            case Missing(k, b) =>
              var s' := Step(s, Insert(c));
              && LocalOf(s', c) == Idle
              && s'.entries == if k in s.entries || |s.entries| < 256 then s.entries[k := Value(b, 1)] else s.entries
            case Found(k, b) =>
              k in s.entries ==>
                var v := s.entries[k];
                var s1, s2 := Step(s, LoadBytes(c)), Step(s, AddBytes(c));
                && LocalOf(s1, c) == BytesLoaded(k, b, v.dropBytes) && s1.entries == s.entries
                && LocalOf(s2, c) == BytesStored(k)
                && s2.entries == s.entries[k := Value(v.dropBytes + b, v.dropCounts)]
            case BytesLoaded(k, b, v) =>
              k in s.entries ==>
                var s' := Step(s, StoreBytes(c));
                && LocalOf(s', c) == BytesStored(k)
                && s'.entries == s.entries[k := Value(v + b, s.entries[k].dropCounts)]
            case BytesStored(k) =>
              k in s.entries ==>
                var v := s.entries[k];
                var s1, s2 := Step(s, LoadCount(c)), Step(s, AddCount(c));
                && LocalOf(s1, c) == CountLoaded(k, v.dropCounts) && s1.entries == s.entries
                && LocalOf(s2, c) == Idle
                && s2.entries == s.entries[k := Value(v.dropBytes, v.dropCounts + 1)]
            case CountLoaded(k, v) =>
              k in s.entries ==>
                var s' := Step(s, StoreCount(c));
                && LocalOf(s', c) == Idle
                && s'.entries == s.entries[k := Value(s.entries[k].dropBytes, v + 1)]
  {
  }

  // ------------------------------------------------------------ the invariant

  ghost function BytesBase(m: Entries): (base: Base) {
    map k | k in m :: m[k].dropBytes
  }

  ghost function CountBase(m: Entries): (base: Base) {
    map k | k in m :: m[k].dropCounts
  }

  /** CPU `c` is about to store to `k` on the strength of the value `v`. */
  ghost predicate Holds(base: Base, log: Log, c: nat, k: Key, v: int) {
    Pending(log, c, k) && Loaded(base, log, c) == v
  }

  ghost predicate LocalOk(s: State, c: nat) {
    match LocalOf(s, c)
    case Idle => true
    case Missing(k, b) =>
      Holds(BytesBase(s.init), s.bytesLog, c, k, 0) && Holds(CountBase(s.init), s.countLog, c, k, 0)
    case Found(k, b) => k in s.entries
    case BytesLoaded(k, b, v) => k in s.entries && Holds(BytesBase(s.init), s.bytesLog, c, k, v)
    case BytesStored(k) => k in s.entries
    case CountLoaded(k, v) => k in s.entries && Holds(CountBase(s.init), s.countLog, c, k, v)
  }

  ghost function BytesAt(m: Entries, k: Key): int {
    if k in m then m[k].dropBytes else 0
  }

  ghost function CountAt(m: Entries, k: Key): int {
    if k in m then m[k].dropCounts else 0
  }

  /** The bytes in the map are those the log leaves in memory. */
  ghost predicate BytesOk(s: State) {
    && (forall k :: BytesAt(s.entries, k) == Cell(BytesBase(s.init), s.bytesLog, k))
    && WellFormed(s.bytesLog) && PositiveAmounts(s.bytesLog)
  }

  ghost predicate CountOk(s: State) {
    && (forall k :: CountAt(s.entries, k) == Cell(CountBase(s.init), s.countLog, k))
    && WellFormed(s.countLog) && PositiveAmounts(s.countLog)
  }

  ghost predicate LocalsOk(s: State) {
    forall c :: LocalOk(s, c)
  }

  ghost predicate Inv(s: State) {
    BytesOk(s) && CountOk(s) && LocalsOk(s)
  }

  /** What one more access changes, and what it leaves. */
  lemma Appended(base: Base, log: Log, a: Access)
    requires WellFormed(log) && PositiveAmounts(log)
    requires a.Store? ==> Pending(log, a.cpu, a.key) && a.amount > 0
    ensures WellFormed(log + [a]) && PositiveAmounts(log + [a])
    ensures forall k :: Cell(base, log + [a], k) ==
                        if a.Store? && a.key == k then Loaded(base, log, a.cpu) + a.amount else Cell(base, log, k)
    ensures forall c, k, v :: c != a.cpu && Holds(base, log, c, k, v) ==> Holds(base, log + [a], c, k, v)
    ensures a.Load? ==> Holds(base, log + [a], a.cpu, a.key, Cell(base, log, a.key))
  {
    var l := log + [a];
    assert l[..|log|] == log;
    forall m | 0 <= m < |l| && l[m].Store? ensures Pending(l[..m], l[m].cpu, l[m].key) {
      assert l[..m] == log[..m];
      if m == |log| { assert log[..m] == log; }
    }
  }

  lemma InitOk(init: Entries)
    ensures Inv(Start(init))
  {
  }

  /** A step of CPU `c` alone leaves the others where they were. */
  lemma OthersKeep(s: State, s': State, c: nat)
    requires LocalsOk(s) && LocalOk(s', c) && s'.init == s.init && s.entries.Keys <= s'.entries.Keys
    requires forall d :: d != c ==> LocalOf(s', d) == LocalOf(s, d)
    requires forall d, k, v :: d != c && Holds(BytesBase(s.init), s.bytesLog, d, k, v)
                               ==> Holds(BytesBase(s.init), s'.bytesLog, d, k, v)
    requires forall d, k, v :: d != c && Holds(CountBase(s.init), s.countLog, d, k, v)
                               ==> Holds(CountBase(s.init), s'.countLog, d, k, v)
    ensures LocalsOk(s')
  {
    forall d ensures LocalOk(s', d) { assert LocalOk(s, d); }
  }

  lemma LookupKeeps(s: State, c: nat, k: Key, b: PacketSize)
    requires Inv(s) && LocalOf(s, c) == Idle
    ensures Inv(DoLookup(s, c, k, b))
  {
    var s' := DoLookup(s, c, k, b);
    if k !in s.entries {
      assert BytesAt(s.entries, k) == 0 && CountAt(s.entries, k) == 0;
      Appended(BytesBase(s.init), s.bytesLog, Load(c, k));
      Appended(CountBase(s.init), s.countLog, Load(c, k));
    }
    OthersKeep(s, s', c);
  }

  lemma InsertKeeps(s: State, c: nat, k: Key, b: PacketSize)
    requires Inv(s) && LocalOf(s, c) == Missing(k, b)
    ensures Inv(DoInsert(s, c, k, b))
  {
    var s' := DoInsert(s, c, k, b);
    assert LocalOk(s, c);
    if k in s.entries || |s.entries| < MAX_ENTRIES {
      InsertedBytes(s, c, k, b);
      InsertedCount(s, c, k, b);
    }
    OthersKeep(s, s', c);
  }

  lemma InsertedBytes(s: State, c: nat, k: Key, b: PacketSize)
    requires BytesOk(s) && Holds(BytesBase(s.init), s.bytesLog, c, k, 0)
    requires k in s.entries || |s.entries| < MAX_ENTRIES
    ensures BytesOk(DoInsert(s, c, k, b))
    ensures forall d, j, v :: d != c && Holds(BytesBase(s.init), s.bytesLog, d, j, v)
                              ==> Holds(BytesBase(s.init), DoInsert(s, c, k, b).bytesLog, d, j, v)
  {
    Appended(BytesBase(s.init), s.bytesLog, Store(c, k, b));
  }

  lemma InsertedCount(s: State, c: nat, k: Key, b: PacketSize)
    requires CountOk(s) && Holds(CountBase(s.init), s.countLog, c, k, 0)
    requires k in s.entries || |s.entries| < MAX_ENTRIES
    ensures CountOk(DoInsert(s, c, k, b))
    ensures forall d, j, v :: d != c && Holds(CountBase(s.init), s.countLog, d, j, v)
                              ==> Holds(CountBase(s.init), DoInsert(s, c, k, b).countLog, d, j, v)
  {
    Appended(CountBase(s.init), s.countLog, Store(c, k, 1));
  }

  lemma LoadBytesKeeps(s: State, c: nat, k: Key, b: PacketSize)
    requires Inv(s) && k in s.entries
    ensures Inv(DoLoadBytes(s, c, k, b))
  {
    assert BytesAt(s.entries, k) == s.entries[k].dropBytes;
    Appended(BytesBase(s.init), s.bytesLog, Load(c, k));
    OthersKeep(s, DoLoadBytes(s, c, k, b), c);
  }

  lemma StoreBytesKeeps(s: State, c: nat, k: Key, b: PacketSize, v: int)
    requires Inv(s) && k in s.entries && Holds(BytesBase(s.init), s.bytesLog, c, k, v)
    ensures Inv(DoStoreBytes(s, c, k, b, v))
  {
    var s' := DoStoreBytes(s, c, k, b, v);
    Appended(BytesBase(s.init), s.bytesLog, Store(c, k, b));
    assert BytesOk(s');
    assert CountOk(s') by {
      assert forall j :: CountAt(s'.entries, j) == CountAt(s.entries, j);
    }
    OthersKeep(s, s', c);
  }

  lemma LoadCountKeeps(s: State, c: nat, k: Key)
    requires Inv(s) && k in s.entries
    ensures Inv(DoLoadCount(s, c, k))
  {
    assert CountAt(s.entries, k) == s.entries[k].dropCounts;
    Appended(CountBase(s.init), s.countLog, Load(c, k));
    OthersKeep(s, DoLoadCount(s, c, k), c);
  }

  lemma StoreCountKeeps(s: State, c: nat, k: Key, v: int)
    requires Inv(s) && k in s.entries && Holds(CountBase(s.init), s.countLog, c, k, v)
    ensures Inv(DoStoreCount(s, c, k, v))
  {
    var s' := DoStoreCount(s, c, k, v);
    Appended(CountBase(s.init), s.countLog, Store(c, k, 1));
    assert CountOk(s');
    assert BytesOk(s') by {
      assert forall j :: BytesAt(s'.entries, j) == BytesAt(s.entries, j);
    }
    OthersKeep(s, s', c);
  }

  /** Every step of every CPU keeps the invariant. */
  lemma StepKeeps(s: State, a: Action)
    requires Inv(s)
    ensures Inv(Step(s, a))
  {
    var c := a.cpu;
    assert LocalOk(s, c);
    match (a, LocalOf(s, c))
    case (Lookup(_, k, b), Idle) => LookupKeeps(s, c, k, b);
    case (Insert(_), Missing(k, b)) => InsertKeeps(s, c, k, b);
    case (LoadBytes(_), Found(k, b)) => LoadBytesKeeps(s, c, k, b);
    case (StoreBytes(_), BytesLoaded(k, b, v)) => StoreBytesKeeps(s, c, k, b, v);
    case (LoadCount(_), BytesStored(k)) => LoadCountKeeps(s, c, k);
    case (StoreCount(_), CountLoaded(k, v)) => StoreCountKeeps(s, c, k, v);
    case (AddBytes(_), Found(k, b)) =>
      LoadBytesKeeps(s, c, k, b);
      assert LocalOk(DoLoadBytes(s, c, k, b), c);
      StoreBytesKeeps(DoLoadBytes(s, c, k, b), c, k, b, s.entries[k].dropBytes);
    case (AddCount(_), BytesStored(k)) =>
      LoadCountKeeps(s, c, k);
      assert LocalOk(DoLoadCount(s, c, k), c);
      StoreCountKeeps(DoLoadCount(s, c, k), c, k, s.entries[k].dropCounts);
    case _ =>
  }

  lemma {:induction false} RunKeeps(init: Entries, acts: seq<Action>)
    ensures Inv(Run(init, acts)) && Run(init, acts).init == init
  {
    if acts == [] {
      InitOk(init);
    } else {
      RunKeeps(init, acts[..|acts| - 1]);
      StepKeeps(Run(init, acts[..|acts| - 1]), acts[|acts| - 1]);
    }
  }

  /** The steps a packet has before it at most. */
  ghost function StepsLeft(l: Local): nat {
    match l
    case Idle => 0
    case Missing(_, _) => 1
    case Found(_, _) => 4
    case BytesLoaded(_, _, _) => 3
    case BytesStored(_) => 2
    case CountLoaded(_, _) => 1
  }

  ghost predicate IsTurn(l: Local, a: Action) {
    match a
    case Lookup(_, _, _) => l.Idle?
    case Insert(_) => l.Missing?
    case LoadBytes(_) => l.Found?
    case StoreBytes(_) => l.BytesLoaded?
    case LoadCount(_) => l.BytesStored?
    case StoreCount(_) => l.CountLoaded?
    case AddBytes(_) => l.Found?
    case AddCount(_) => l.BytesStored?
  }

  /** In every reachable state a CPU whose turn it is moves on, so that a packet is done after
      four steps at most; any other action changes nothing. */
  lemma NobodyIsStuck(init: Entries, acts: seq<Action>, a: Action)
    ensures var s := Run(init, acts);
            var l, l' := LocalOf(s, a.cpu), LocalOf(Step(s, a), a.cpu);
            && (IsTurn(l, a) ==> if a.Lookup? then 0 < StepsLeft(l') <= 4 else StepsLeft(l') < StepsLeft(l))
            && (!IsTurn(l, a) ==> Step(s, a) == s)
  {
    var s := Run(init, acts);
    RunKeeps(init, acts);
    assert LocalOk(s, a.cpu);
    StepEffects(s, a.cpu);
    if a.Lookup? && IsTurn(LocalOf(s, a.cpu), a) { LookupEffect(s, a.cpu, a.key, a.bytes); }
  }

  // ------------------------------------------------------------ the theorems

  /** In every interleaving, no entry exceeds what it started with plus the packets that have
      completed the store in question. */
  lemma StoredNeverExceedsTotals(init: Entries, acts: seq<Action>, k: Key)
    ensures var s := Run(init, acts);
            k in s.entries ==>
              && s.entries[k].dropBytes <= BytesAt(init, k) + Total(s.bytesLog, k)
              && s.entries[k].dropCounts <= CountAt(init, k) + Total(s.countLog, k)
  {
    var s := Run(init, acts);
    RunKeeps(init, acts);
    NeverExceeds(BytesBase(init), s.bytesLog, k);
    NeverExceeds(CountBase(init), s.countLog, k);
    assert BytesAt(s.entries, k) == Cell(BytesBase(init), s.bytesLog, k);
    assert CountAt(s.entries, k) == Cell(CountBase(init), s.countLog, k);
  }

  /** In every interleaving, an entry is exact if and only if no store to it came between
      another CPU's load and store of the same field. */
  lemma StoredExactIffNoOverlap(init: Entries, acts: seq<Action>, k: Key)
    ensures var s := Run(init, acts);
            k in s.entries ==>
              && (s.entries[k].dropBytes == BytesAt(init, k) + Total(s.bytesLog, k) <==> !Overlap(s.bytesLog, k))
              && (s.entries[k].dropCounts == CountAt(init, k) + Total(s.countLog, k) <==> !Overlap(s.countLog, k))
  {
    var s := Run(init, acts);
    RunKeeps(init, acts);
    ExactIffNoOverlap(BytesBase(init), s.bytesLog, k);
    ExactIffNoOverlap(CountBase(init), s.countLog, k);
    assert BytesAt(s.entries, k) == Cell(BytesBase(init), s.bytesLog, k);
    assert CountAt(s.entries, k) == Cell(CountBase(init), s.countLog, k);
  }

  /** Only packets of known keys, and only atomic updates. */
  ghost predicate AtomicOnKnownKeys(init: Entries, acts: seq<Action>) {
    forall i :: 0 <= i < |acts| ==>
      (acts[i].Lookup? && acts[i].key in init) || acts[i].AddBytes? || acts[i].AddCount?
  }

  ghost predicate NoneMissing(s: State) {
    && s.init.Keys <= s.entries.Keys
    && forall c :: !LocalOf(s, c).Missing?
  }

  ghost predicate AllAtomic(s: State) {
    NoneMissing(s) && Atomic(s.bytesLog) && Atomic(s.countLog)
  }

  lemma AtomicStep(s: State, a: Action)
    requires AllAtomic(s)
    requires (a.Lookup? && a.key in s.init) || a.AddBytes? || a.AddCount?
    ensures AllAtomic(Step(s, a)) && Step(s, a).init == s.init
  {
    var s' := Step(s, a);
    assert !LocalOf(s, a.cpu).Missing?;
    forall c ensures !LocalOf(s', c).Missing? { assert !LocalOf(s, c).Missing?; }
  }

  lemma {:induction false} AtomicLogs(init: Entries, acts: seq<Action>)
    requires AtomicOnKnownKeys(init, acts)
    ensures var s := Run(init, acts); s.init == init && AllAtomic(s)
  {
    if acts != [] {
      var n := |acts| - 1;
      AtomicLogs(init, acts[..n]);
      AtomicStep(Run(init, acts[..n]), acts[n]);
    }
  }

  // ------------------------------------------------------------ serial runs

  /** The steps of one packet on one CPU. Of these only those of its own branch do anything. */
  ghost function PacketSteps(c: nat, k: Key, b: PacketSize): seq<Action> {
    [Lookup(c, k, b), Insert(c), LoadBytes(c), StoreBytes(c), LoadCount(c), StoreCount(c)]
  }

  ghost predicate AllIdle(s: State) {
    forall c :: LocalOf(s, c) == Idle
  }

  lemma SixSteps(s: State, p: seq<Action>)
    requires |p| == 6
    ensures StepAll(s, p) == Step(Step(Step(Step(Step(Step(s, p[0]), p[1]), p[2]), p[3]), p[4]), p[5])
  {
    assert p[..5][..4] == p[..4] && p[..4][..3] == p[..3] && p[..3][..2] == p[..2] && p[..2][..1] == p[..1];
    assert p[..1][..0] == [];
    assert StepAll(s, p[..1]) == Step(s, p[0]);
    assert StepAll(s, p[..2]) == Step(StepAll(s, p[..1]), p[1]);
    assert StepAll(s, p[..3]) == Step(StepAll(s, p[..2]), p[2]);
    assert StepAll(s, p[..4]) == Step(StepAll(s, p[..3]), p[3]);
    assert StepAll(s, p[..5]) == Step(StepAll(s, p[..4]), p[4]);
  }

  lemma NothingToDo(s: State, c: nat)
    requires LocalOf(s, c) == Idle
    ensures Step(s, Insert(c)) == s && Step(s, LoadBytes(c)) == s && Step(s, StoreBytes(c)) == s
    ensures Step(s, LoadCount(c)) == s && Step(s, StoreCount(c)) == s
  {
  }

  lemma NewKeyPacket(s: State, c: nat, k: Key, b: PacketSize)
    requires LocalOf(s, c) == Idle && k !in s.entries
    ensures StepAll(s, PacketSteps(c, k, b)) == DoInsert(DoLookup(s, c, k, b), c, k, b)
  {
    SixSteps(s, PacketSteps(c, k, b));
    var s1 := DoLookup(s, c, k, b);
    var s2 := DoInsert(s1, c, k, b);
    assert Step(Step(s, Lookup(c, k, b)), Insert(c)) == s2 by {
      assert Step(s, Lookup(c, k, b)) == s1;
      assert LocalOf(s1, c) == Missing(k, b);
      assert Step(s1, Insert(c)) == s2;
    }
    NothingToDo(s2, c);
  }

  lemma BytesUpdate(s: State, c: nat, k: Key, b: PacketSize)
    requires LocalOf(s, c) == Found(k, b) && k in s.entries
    ensures Step(Step(s, LoadBytes(c)), StoreBytes(c)) ==
            DoStoreBytes(DoLoadBytes(s, c, k, b), c, k, b, s.entries[k].dropBytes)
  {
    var s1 := DoLoadBytes(s, c, k, b);
    assert Step(s, LoadBytes(c)) == s1;
    assert LocalOf(s1, c) == BytesLoaded(k, b, s.entries[k].dropBytes);
  }

  lemma CountUpdate(s: State, c: nat, k: Key)
    requires LocalOf(s, c) == BytesStored(k) && k in s.entries
    ensures Step(Step(s, LoadCount(c)), StoreCount(c)) ==
            DoStoreCount(DoLoadCount(s, c, k), c, k, s.entries[k].dropCounts)
  {
    var s1 := DoLoadCount(s, c, k);
    assert Step(s, LoadCount(c)) == s1;
    assert LocalOf(s1, c) == CountLoaded(k, s.entries[k].dropCounts);
  }

  lemma KnownKeyPacket(s: State, c: nat, k: Key, b: PacketSize)
    requires LocalOf(s, c) == Idle && k in s.entries
    ensures var s1 := DoLoadBytes(DoLookup(s, c, k, b), c, k, b);
            var s2 := DoStoreBytes(s1, c, k, b, s.entries[k].dropBytes);
            StepAll(s, PacketSteps(c, k, b)) == DoStoreCount(DoLoadCount(s2, c, k), c, k, s.entries[k].dropCounts)
  {
    SixSteps(s, PacketSteps(c, k, b));
    var s0 := DoLookup(s, c, k, b);
    assert Step(Step(s, Lookup(c, k, b)), Insert(c)) == s0 by {
      assert Step(s, Lookup(c, k, b)) == s0;
      assert LocalOf(s0, c) == Found(k, b);
    }
    BytesUpdate(s0, c, k, b);
    var s2 := DoStoreBytes(DoLoadBytes(s0, c, k, b), c, k, b, s.entries[k].dropBytes);
    CountUpdate(s2, c, k);
  }

  lemma KnownKeyAccounted(s: State, s': State, c: nat, k: Key, b: PacketSize)
    requires AllIdle(s) && k in s.entries
    requires var s1 := DoLoadBytes(DoLookup(s, c, k, b), c, k, b);
             var s2 := DoStoreBytes(s1, c, k, b, s.entries[k].dropBytes);
             s' == DoStoreCount(DoLoadCount(s2, c, k), c, k, s.entries[k].dropCounts)
    ensures AllIdle(s') && s'.entries == Account(s.entries, Drop(k, b))
  {
    assert forall d :: LocalOf(s', d) == if d == c then Idle else LocalOf(s, d);
  }

  lemma NewKeyAccounted(s: State, s': State, c: nat, k: Key, b: PacketSize)
    requires AllIdle(s) && k !in s.entries && s' == DoInsert(DoLookup(s, c, k, b), c, k, b)
    ensures AllIdle(s') && s'.entries == Account(s.entries, Drop(k, b))
  {
    assert forall d :: LocalOf(s', d) == if d == c then Idle else LocalOf(s, d);
  }

  /** A packet that nobody interferes with is accounted for as in the serial program. */
  lemma UndisturbedPacket(s: State, c: nat, k: Key, b: PacketSize)
    requires AllIdle(s)
    ensures var s' := StepAll(s, PacketSteps(c, k, b));
            AllIdle(s') && s'.entries == Account(s.entries, Drop(k, b))
  {
    assert LocalOf(s, c) == Idle;
    var s' := StepAll(s, PacketSteps(c, k, b));
    if k in s.entries {
      KnownKeyPacket(s, c, k, b);
      KnownKeyAccounted(s, s', c, k, b);
    } else {
      NewKeyPacket(s, c, k, b);
      NewKeyAccounted(s, s', c, k, b);
    }
  }

  lemma {:induction false} StepAllConcat(s: State, p: seq<Action>, q: seq<Action>)
    ensures StepAll(s, p + q) == StepAll(StepAll(s, p), q)
  {
    if q == [] {
      assert p + q == p;
    } else {
      var n := |q| - 1;
      StepAllConcat(s, p, q[..n]);
      assert (p + q)[..|p + q| - 1] == p + q[..n] && (p + q)[|p + q| - 1] == q[n];
      assert StepAll(s, p + q) == Step(StepAll(s, p + q[..n]), q[n]);
    }
  }

  /** A packet and the CPU that happens to handle it. */
  datatype Job = Job(cpu: nat, key: Key, bytes: PacketSize)

  ghost function SerialActs(jobs: seq<Job>): seq<Action> {
    if jobs == [] then []
    else
      var j := jobs[|jobs| - 1];
      SerialActs(jobs[..|jobs| - 1]) + PacketSteps(j.cpu, j.key, j.bytes)
  }

  ghost function JobDrops(jobs: seq<Job>): seq<Drop> {
    if jobs == [] then []
    else JobDrops(jobs[..|jobs| - 1]) + [Drop(jobs[|jobs| - 1].key, jobs[|jobs| - 1].bytes)]
  }

  /** Whole packets one after the other, on whatever CPUs, give the map of the serial
      program. */
  lemma {:induction false} SerialRuns(init: Entries, jobs: seq<Job>)
    ensures var s := Run(init, SerialActs(jobs));
            AllIdle(s) && s.entries == AccountAll(init, JobDrops(jobs))
  {
    if jobs != [] {
      var n := |jobs| - 1;
      var j, ds := jobs[n], JobDrops(jobs[..n]);
      SerialRuns(init, jobs[..n]);
      StepAllConcat(Start(init), SerialActs(jobs[..n]), PacketSteps(j.cpu, j.key, j.bytes));
      UndisturbedPacket(Run(init, SerialActs(jobs[..n])), j.cpu, j.key, j.bytes);
      assert (ds + [Drop(j.key, j.bytes)])[..|ds|] == ds;
    }
  }

  lemma TwoInsertions(k: Key, b: PacketSize)
    ensures var s := Run(map[], [Lookup(0, k, b), Lookup(1, k, b), Insert(0), Insert(1)]);
            && s.entries == map[k := Value(b, 1)]
            && s.countLog == [Load(0, k), Load(1, k), Store(0, k, 1)] + [Store(1, k, 1)]
  {
    var acts := [Lookup(0, k, b), Lookup(1, k, b), Insert(0), Insert(1)];
    var s0 := Start(map[]);
    assert acts[..3][..2] == acts[..2] && acts[..2][..1] == acts[..1] && acts[..1][..0] == [];
    var s1 := StepAll(s0, acts[..1]);
    assert s1 == Step(StepAll(s0, acts[..1][..0]), acts[0]) == DoLookup(s0, 0, k, b);
    var s2 := StepAll(s0, acts[..2]);
    assert s2 == DoLookup(s1, 1, k, b);
    assert LocalOf(s2, 0) == Missing(k, b);
    var s3 := StepAll(s0, acts[..3]);
    assert s3 == DoInsert(s2, 0, k, b);
    assert LocalOf(s3, 1) == Missing(k, b);
  }

  /** Two CPUs that look up a new key before either has inserted it lose one of two packets. */
  lemma LostInsertion(k: Key, b: PacketSize)
    ensures var s := Run(map[], [Lookup(0, k, b), Lookup(1, k, b), Insert(0), Insert(1)]);
            k in s.entries && s.entries[k].dropCounts == 1 && Total(s.countLog, k) == 2
  {
    TwoInsertions(k, b);
    var log: Log := [Load(0, k)];
    TotalConcat([], Load(0, k), k);
    TotalConcat(log, Load(1, k), k);
    TotalConcat(log + [Load(1, k)], Store(0, k, 1), k);
    assert log + [Load(1, k)] + [Store(0, k, 1)] == [Load(0, k), Load(1, k), Store(0, k, 1)];
    TotalConcat([Load(0, k), Load(1, k), Store(0, k, 1)], Store(1, k, 1), k);
  }

  /** Both CPUs have loaded the bytes before either stores them. */
  lemma BothLoaded(s: State, c: nat, d: nat, k: Key, b1: PacketSize, b2: PacketSize)
    requires c != d && LocalOf(s, c) == LocalOf(s, d) == Idle && k in s.entries
    ensures var s2 := Step(Step(s, Lookup(c, k, b1)), Lookup(d, k, b2));
            var s4 := Step(Step(s2, LoadBytes(c)), LoadBytes(d));
            && LocalOf(s4, c) == BytesLoaded(k, b1, s.entries[k].dropBytes)
            && LocalOf(s4, d) == BytesLoaded(k, b2, s.entries[k].dropBytes)
            && s4.entries == s.entries && s4.bytesLog == s.bytesLog + [Load(c, k)] + [Load(d, k)]
  {
    var s1 := Step(s, Lookup(c, k, b1));
    var s2 := Step(s1, Lookup(d, k, b2));
    assert LocalOf(s1, d) == Idle && LocalOf(s2, c) == Found(k, b1) && LocalOf(s2, d) == Found(k, b2);
    var s3 := Step(s2, LoadBytes(c));
    assert LocalOf(s3, d) == Found(k, b2);
  }

  lemma BothStored(s: State, c: nat, d: nat, k: Key, b1: PacketSize, b2: PacketSize, v: int)
    requires c != d && k in s.entries
    requires LocalOf(s, c) == BytesLoaded(k, b1, v) && LocalOf(s, d) == BytesLoaded(k, b2, v)
    ensures var s' := Step(Step(s, StoreBytes(c)), StoreBytes(d));
            && k in s'.entries && s'.entries[k].dropBytes == v + b2 && LocalOf(s', d) == BytesStored(k)
            && s'.bytesLog == s.bytesLog + [Store(c, k, b1)] + [Store(d, k, b2)]
  {
    var s1 := Step(s, StoreBytes(c));
    assert LocalOf(s1, d) == BytesLoaded(k, b2, v);
  }

  /** Two CPUs that both load the bytes of an entry before either stores them: the update of
      the first is lost, and the second goes on as if nothing had happened. */
  lemma LostUpdate(init: Entries, c: nat, d: nat, k: Key, b1: PacketSize, b2: PacketSize)
    requires c != d && k in init
    ensures var s := Run(init, [Lookup(c, k, b1), Lookup(d, k, b2), LoadBytes(c), LoadBytes(d),
                                StoreBytes(c), StoreBytes(d)]);
            && k in s.entries && s.entries[k].dropBytes == init[k].dropBytes + b2
            && Total(s.bytesLog, k) == b1 + b2 && LocalOf(s, d) == BytesStored(k)
  {
    var s := Start(init);
    SixSteps(s, [Lookup(c, k, b1), Lookup(d, k, b2), LoadBytes(c), LoadBytes(d), StoreBytes(c), StoreBytes(d)]);
    BothLoaded(s, c, d, k, b1, b2);
    var s2 := Step(Step(s, Lookup(c, k, b1)), Lookup(d, k, b2));
    BothStored(Step(Step(s2, LoadBytes(c)), LoadBytes(d)), c, d, k, b1, b2, init[k].dropBytes);
    TotalConcat(s.bytesLog, Load(c, k), k);
    TotalConcat(s.bytesLog + [Load(c, k)], Load(d, k), k);
    var log := s.bytesLog + [Load(c, k)] + [Load(d, k)];
    TotalConcat(log, Store(c, k, b1), k);
    TotalConcat(log + [Store(c, k, b1)], Store(d, k, b2), k);
  }
}
