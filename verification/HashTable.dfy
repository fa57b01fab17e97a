/**
The one-slot-per-bucket hash table of the de-duplication program.
*/
module HashTable {

  const CAPACITY := 20

  /** The keys that hash to a bucket of the table. */
  predicate IsHashable(key: int) {
    key >= 0 || key % CAPACITY == 0
  }

  type Hashable = key: int | IsHashable(key)

  /** `key % CAPACITY` with the sign of the dividend, as in C. A key indexes inside the table
      if and only if it is non-negative or a multiple of CAPACITY. */
  function HashFunc(key: int): (b: int)
    ensures 0 <= b < CAPACITY <==> IsHashable(key)
    ensures key < 0 ==> -CAPACITY < b <= 0
  {
    if key >= 0 then key % CAPACITY else -((-key) % CAPACITY)
  }

  /** The key -1 indexes in front of the table; the key -20 does not. */
  lemma MinusOneIsOutside()
    ensures HashFunc(-1) == -1 && !IsHashable(-1)
    ensures HashFunc(-20) == 0 && IsHashable(-20)
  {
  }

  /** The values below 20 have a bucket each, and 20 further on the buckets repeat. */
  lemma TwentyBuckets(a: nat, b: nat)
    ensures a < b < 20 ==> HashFunc(a) != HashFunc(b)
    ensures HashFunc(a + 20) == HashFunc(a)
    ensures a < 20 ==> HashFunc(a) == a
  {
  }

  /** Two values share a bucket exactly when they are congruent. */
  lemma SameBucketIffCongruent(a: Hashable, b: Hashable)
    ensures HashFunc(a) == HashFunc(b) <==> (a - b) % CAPACITY == 0
  {
    assert HashFunc(a) == a % CAPACITY && HashFunc(b) == b % CAPACITY;
  }

  datatype HashItem = HashItem(value: int, mark: int)

  datatype Outcome = NoSpace | Inserted | AlreadyThere | OtherValueThere

  type Buckets = map<int, int>

  /** What insert, remove and find do to the values stored by bucket. */
  datatype Op = InsertOp(value: Hashable) | RemoveOp(value: Hashable) | FindOp(value: Hashable)

  ghost function Apply(m: Buckets, op: Op): Buckets {
    var b := HashFunc(op.value);
    match op
    case InsertOp(v) => if b in m then m else m[b := v]
    case RemoveOp(v) => if b in m && m[b] == v then m - {b} else m
    case FindOp(v) => m
  }

  ghost function ApplyAll(m: Buckets, ops: seq<Op>): Buckets {
    if ops == [] then m else Apply(ApplyAll(m, ops[..|ops| - 1]), ops[|ops| - 1])
  }

  ghost predicate WellPlaced(m: Buckets) {
    forall b :: b in m ==> 0 <= b < CAPACITY && HashFunc(m[b]) == b
  }

  /** A bucket gets a value only when it is free and a value that hashes to it is inserted, and
      loses one only when that very value is removed. */
  lemma OccupantsChange(m: Buckets, op: Op, b: int)
    ensures b !in m && b in Apply(m, op) ==>
              op.InsertOp? && HashFunc(op.value) == b && Apply(m, op)[b] == op.value
    ensures b in m && b !in Apply(m, op) ==> op == RemoveOp(m[b])
    ensures b in m && b in Apply(m, op) ==> Apply(m, op)[b] == m[b]
  {
  }

  /** After an insertion the bucket is occupied; a removal undoes it if the bucket was free. */
  lemma InsertThenRemove(m: Buckets, v: Hashable)
    ensures HashFunc(v) in Apply(m, InsertOp(v))
    ensures HashFunc(v) !in m ==> Apply(Apply(m, InsertOp(v)), RemoveOp(v)) == m
  {
    var b := HashFunc(v);
    if b !in m {
      assert m[b := v] - {b} == m;
    }
  }

  /** Over any run every value stays in its own bucket. */
  lemma {:induction false} RunKeepsPlaces(m: Buckets, ops: seq<Op>)
    requires WellPlaced(m)
    ensures WellPlaced(ApplyAll(m, ops))
  {
    if ops != [] { RunKeepsPlaces(m, ops[..|ops| - 1]); }
  }

  lemma {:induction false} BoundedSize(s: set<int>, n: nat)
    requires forall b :: b in s ==> 0 <= b < n
    ensures |s| <= n
  {
    if exists b :: b in s {
      BoundedSize(s - {n - 1}, n - 1);
    } else {
      assert s == {};
    }
  }

  /** There are never more values than buckets. */
  lemma AtMostCapacity(m: Buckets)
    requires WellPlaced(m)
    ensures |m| <= CAPACITY
  {
    BoundedSize(m.Keys, CAPACITY);
    assert |m| == |m.Keys|;
  }

  /** The stored values of a table, by bucket. */
  ghost function Marked(items: seq<HashItem>): (m: Buckets)
    ensures forall b :: b in m <==> 0 <= b < |items| && items[b].mark != 0
    ensures forall b :: b in m ==> m[b] == items[b].value
  {
    map b | 0 <= b < |items| && items[b].mark != 0 :: items[b].value
  }

  class Table {
    const items: array<HashItem>
    var sizeUsed: int

    ghost function Contents(): Buckets
      reads items
    {
      Marked(items[..])
    }

    /** `size_used` counts the marked buckets, and each of them holds a value hashing to it. */
    ghost predicate Valid()
      reads this, items
    {
      && items.Length == CAPACITY
      && WellPlaced(Contents())
      && sizeUsed == |Contents()|
    }

    /** init_table at program start, when `size_used` is 0. */
    constructor ()
      ensures Valid() && Contents() == map[] && fresh(items)
    {
      items := new HashItem[CAPACITY];
      sizeUsed := 0;
      new;
      for i := 0 to CAPACITY
        invariant sizeUsed == 0
        invariant forall j :: 0 <= j < i ==> items[j] == HashItem(0, 0)
      {
        items[i] := HashItem(0, 0);
      }
      assert Contents() == map[];
    }

    method Insert(value: Hashable) returns (r: Outcome)
      requires Valid()
      modifies this`sizeUsed, items
      ensures Valid() && Contents() == Apply(old(Contents()), InsertOp(value))
      ensures Contents() == if r == Inserted then old(Contents())[HashFunc(value) := value] else old(Contents())
      ensures r != NoSpace
      ensures r == Inserted <==> HashFunc(value) !in old(Contents())
      ensures r == AlreadyThere <==> HashFunc(value) in old(Contents()) && old(Contents())[HashFunc(value)] == value
    {
      AtMostCapacity(Contents());
      var key := HashFunc(value);
      if sizeUsed > CAPACITY { return NoSpace; }
      if items[key].mark == 0 {
        items[key] := HashItem(value, items[key].mark);
        items[key] := HashItem(items[key].value, 1);
        sizeUsed := sizeUsed + 1;
        assert Contents() == old(Contents())[key := value];
        r := Inserted;
      } else if items[key].value == value {
        r := AlreadyThere;
      } else {
        r := OtherValueThere;
      }
    }

    method Remove(value: Hashable) returns (removed: bool)
      requires Valid()
      modifies this`sizeUsed, items
      ensures Valid() && Contents() == Apply(old(Contents()), RemoveOp(value))
      ensures Contents() == if removed then old(Contents()) - {HashFunc(value)} else old(Contents())
      ensures removed <==> HashFunc(value) in old(Contents()) && old(Contents())[HashFunc(value)] == value
    {
      var key := HashFunc(value);
      removed := false;
      if items[key].mark == 0 {
      } else if items[key].value == value {
        items[key] := HashItem(0, items[key].mark);
        items[key] := HashItem(items[key].value, 0);
        sizeUsed := sizeUsed - 1;
        removed := true;
        assert Contents() == old(Contents()) - {key};
        assert |old(Contents()) - {key}| == |old(Contents())| - 1 by {
          assert (old(Contents()) - {key}).Keys == old(Contents()).Keys - {key};
        }
      }
    }

    /** find_item only looks whether the bucket is occupied, not by what. */
    method Find(value: Hashable) returns (found: int)
      requires Valid()
      ensures found == if HashFunc(value) in Contents() then 1 else 0
    {
      var key := HashFunc(value);
      if items[key].mark == 0 { found := 0; } else { found := 1; }
    }
  }

  /** Any run of operations from a fresh table: the count is right, every value is in its
      own bucket, and no insertion ever reports a lack of space. */
  method Run(ops: seq<Op>) returns (t: Table, outcomes: seq<Outcome>)
    ensures fresh(t) && fresh(t.items)
    ensures t.Valid() && t.Contents() == ApplyAll(map[], ops)
    ensures NoSpace !in outcomes
  {
    t := new Table();
    outcomes := [];
    for i := 0 to |ops|
      invariant t.Valid() && t.Contents() == ApplyAll(map[], ops[..i])
      invariant NoSpace !in outcomes
    {
      assert ops[..i + 1][..i] == ops[..i];
      match ops[i]
      case InsertOp(v) =>
        var r := t.Insert(v);
        outcomes := outcomes + [r];
      case RemoveOp(v) =>
        var removed := t.Remove(v);
      case FindOp(v) =>
        var found := t.Find(v);
    }
    assert ops[..|ops|] == ops;
  }
}
