/**
The XDP program that drops ICMP packets and accounts for them per (source, destination)
pair in a hash map of at most 256 entries. One packet after the other.
*/
module XdpDropIcmp {
  import opened Octets

  type Packet = seq<byte>

  const ETH_HEADER := 14
  const IP_HEADER := 20
  const IPPROTO_ICMP: byte := 1
  const MAX_ENTRIES: nat := 256

  datatype Verdict = Aborted | Dropped | Passed

  /** The two addresses as they stand in the packet, in network byte order. */
  datatype Key = Key(src: seq<byte>, dst: seq<byte>)
  datatype Value = Value(dropBytes: int, dropCounts: int)
  type Entries = map<Key, Value>

  // ------------------------------------------------------------ one packet

  predicate HasEthernet(p: Packet) {
    |p| >= ETH_HEADER
  }

  /** The EtherType field holds ETH_P_IP, 0x0800 in network byte order. */
  predicate IsIp(p: Packet)
    requires HasEthernet(p)
  {
    p[12] == 0x08 && p[13] == 0x00
  }

  predicate HasIp(p: Packet) {
    |p| >= ETH_HEADER + IP_HEADER
  }

  /** Protocol is octet 9 of the IP header, the addresses are octets 12-15 and 16-19
      (section 3.1 of RFC 791). */
  predicate IsIcmp(p: Packet)
    requires HasIp(p)
  {
    p[ETH_HEADER + 9] == IPPROTO_ICMP
  }

  function KeyOf(p: Packet): (k: Key)
    requires HasIp(p)
    ensures |k.src| == 4 && |k.dst| == 4
  {
    Key(p[ETH_HEADER + 12..ETH_HEADER + 16], p[ETH_HEADER + 16..ETH_HEADER + 20])
  }

  /** What happens to a packet: it depends on nothing but the packet. */
  ghost predicate IsDropped(p: Packet) {
    HasIp(p) && IsIp(p) && IsIcmp(p)
  }

  /** A packet is cut short in the Ethernet header, or in the IP header that it announces. */
  ghost predicate IsAborted(p: Packet) {
    !HasEthernet(p) || (IsIp(p) && !HasIp(p))
  }

  /** The fields of the IP header without options, in the order of section 3.1 of RFC 791. */
  datatype IpHeader = IpHeader(
    versionAndLength: byte, typeOfService: byte, totalLength: seq<byte>, identification: seq<byte>,
    flagsAndOffset: seq<byte>, timeToLive: byte, protocol: byte, checksum: seq<byte>,
    source: seq<byte>, destination: seq<byte>)

  ghost predicate ValidHeader(h: IpHeader) {
    && |h.totalLength| == |h.identification| == |h.flagsAndOffset| == |h.checksum| == 2
    && |h.source| == |h.destination| == 4
  }

  ghost function HeaderBytes(h: IpHeader): (b: seq<byte>)
    requires ValidHeader(h)
    ensures |b| == IP_HEADER
  {
    [h.versionAndLength, h.typeOfService] + h.totalLength + h.identification + h.flagsAndOffset
    + [h.timeToLive, h.protocol] + h.checksum + h.source + h.destination
  }

  /** The program reads the right fields: a frame with any EtherType and any IP header is
      dropped if and only if it is an IP frame (0x0800) that carries ICMP (1), and its key is
      the pair of its addresses. */
  lemma ReadsHeaderFields(addresses: seq<byte>, etherType: seq<byte>, h: IpHeader, payload: seq<byte>)
    requires |addresses| == 12 && |etherType| == 2 && ValidHeader(h)
    ensures var p := addresses + etherType + HeaderBytes(h) + payload;
            && HasIp(p) && !IsAborted(p)
            && (IsDropped(p) <==> etherType == [0x08, 0x00] && h.protocol == 1)
            && KeyOf(p) == Key(h.source, h.destination)
  {
    var b := HeaderBytes(h);
    var p := addresses + etherType + b + payload;
    assert p[12] == etherType[0] && p[13] == etherType[1];
    assert forall i :: 0 <= i < IP_HEADER ==> p[ETH_HEADER + i] == b[i];
    assert b[9] == h.protocol;
    assert p[26..30] == b[12..16] == h.source;
    assert p[30..34] == b[16..20] == h.destination;
  }

  /** The octets that decide about a packet, by their offsets in the frame. */
  lemma DecidingOctets(p: Packet)
    ensures IsDropped(p) <==> |p| >= 34 && p[12] == 0x08 && p[13] == 0x00 && p[23] == 1
    ensures IsAborted(p) <==> |p| < 14 || (p[12] == 0x08 && p[13] == 0x00 && |p| < 34)
    ensures IsDropped(p) ==> KeyOf(p) == Key(p[26..30], p[30..34])
  {
  }

  /** What the program has to remember of a dropped packet. */
  datatype Drop = Drop(key: Key, bytes: nat)

  ghost function DropOf(p: Packet): Drop
    requires IsDropped(p)
  {
    Drop(KeyOf(p), |p|)
  }

  /** The accounting of one drop: update in place, or insert if there is room. */
  ghost function Account(m: Entries, d: Drop): Entries {
    if d.key in m then
      m[d.key := Value(m[d.key].dropBytes + d.bytes, m[d.key].dropCounts + 1)]
    else if |m| < MAX_ENTRIES then
      m[d.key := Value(d.bytes, 1)]
    else
      m
  }

  class DropMap {
    var entries: Entries

    constructor ()
      ensures entries == map[]
    {
      entries := map[];
    }

    /** bpf_map_update_elem with BPF_ANY: add or replace; a new key needs room. */
    method UpdateElem(key: Key, value: Value) returns (ok: bool)
      modifies this
      ensures ok <==> key in old(entries) || |old(entries)| < MAX_ENTRIES
      ensures entries == if ok then old(entries)[key := value] else old(entries)
    {
      ok := key in entries || |entries| < MAX_ENTRIES;
      if ok { entries := entries[key := value]; }
    }

    method DropIcmp(p: Packet) returns (v: Verdict)
      modifies this
      ensures v == Dropped <==> IsDropped(p)
      ensures v == Aborted <==> IsAborted(p)
      ensures entries == if IsDropped(p) then Account(old(entries), DropOf(p)) else old(entries)
    {
      if |p| < ETH_HEADER { return Aborted; }
      if IsIp(p) {
        if |p| < ETH_HEADER + IP_HEADER { return Aborted; }
        if IsIcmp(p) {
          var key := KeyOf(p);
          var bytes := |p|;
          if key !in entries {
            var ok := UpdateElem(key, Value(bytes, 1));
          } else {
            entries := entries[key := entries[key].(dropBytes := entries[key].dropBytes + bytes)];
            entries := entries[key := entries[key].(dropCounts := entries[key].dropCounts + 1)];
          }
          return Dropped;
        }
      }
      return Passed;
    }
  }

  // ------------------------------------------------------------ a whole run

  ghost function Drops(ps: seq<Packet>): seq<Drop> {
    if ps == [] then []
    else
      var n := |ps| - 1;
      Drops(ps[..n]) + if IsDropped(ps[n]) then [DropOf(ps[n])] else []
  }

  ghost function AccountAll(m: Entries, ds: seq<Drop>): Entries {
    if ds == [] then m else Account(AccountAll(m, ds[..|ds| - 1]), ds[|ds| - 1])
  }

  /** How often a key was dropped, and with how many bytes. */
  ghost function Count(ds: seq<Drop>, k: Key): nat {
    if ds == [] then 0 else Count(ds[..|ds| - 1], k) + if ds[|ds| - 1].key == k then 1 else 0
  }

  ghost function Bytes(ds: seq<Drop>, k: Key): nat {
    if ds == [] then 0 else Bytes(ds[..|ds| - 1], k) + if ds[|ds| - 1].key == k then ds[|ds| - 1].bytes else 0
  }

  /** The keys in order of their first appearance. */
  ghost function KeyOrder(ds: seq<Drop>): (ks: seq<Key>)
    ensures forall i, j :: 0 <= i < j < |ks| ==> ks[i] != ks[j]
  {
    if ds == [] then []
    else
      var ks := KeyOrder(ds[..|ds| - 1]);
      if ds[|ds| - 1].key in ks then ks else ks + [ds[|ds| - 1].key]
  }

  /** They are the keys of at least one drop. */
  lemma {:induction false} KeyOrderMembers(ds: seq<Drop>, k: Key)
    ensures k in KeyOrder(ds) <==> Count(ds, k) > 0
  {
    if ds != [] { KeyOrderMembers(ds[..|ds| - 1], k); }
  }

  /** The first 256 of them. */
  ghost function Admitted(ds: seq<Drop>): (ks: seq<Key>) {
    var ks := KeyOrder(ds);
    if |ks| <= MAX_ENTRIES then ks else ks[..MAX_ENTRIES]
  }

  /** The map is exact: its keys are the admitted ones, in any order, and every entry holds
      the true totals of its key. */
  ghost predicate Exact(m: Entries, ds: seq<Drop>) {
    && (forall k :: k in m <==> k in Admitted(ds))
    && |m| == |Admitted(ds)|
    && (forall k :: k in m ==> m[k] == Value(Bytes(ds, k), Count(ds, k)))
  }

  lemma {:induction false} UnseenTotals(ds: seq<Drop>, k: Key)
    requires k !in KeyOrder(ds)
    ensures Count(ds, k) == 0 && Bytes(ds, k) == 0
  {
    if ds != [] { UnseenTotals(ds[..|ds| - 1], k); }
  }

  lemma AdmittedStep(ds: seq<Drop>, d: Drop)
    ensures var ks := KeyOrder(ds);
            Admitted(ds + [d]) ==
            if d.key in ks || |ks| >= MAX_ENTRIES then Admitted(ds) else Admitted(ds) + [d.key]
  {
    assert (ds + [d])[..|ds|] == ds;
  }

  lemma TotalsStep(ds: seq<Drop>, d: Drop, k: Key)
    ensures Count(ds + [d], k) == Count(ds, k) + if d.key == k then 1 else 0
    ensures Bytes(ds + [d], k) == Bytes(ds, k) + if d.key == k then d.bytes else 0
  {
    assert (ds + [d])[..|ds|] == ds;
  }

  /** The accounting gives a key an entry exactly when it is admitted. */
  lemma AccountAdmits(m: Entries, ds: seq<Drop>, d: Drop)
    requires Exact(m, ds)
    ensures var m' := Account(m, d);
            |m'| == |Admitted(ds + [d])| && forall k :: k in m' <==> k in Admitted(ds + [d])
  {
    AdmittedStep(ds, d);
    assert d.key in Admitted(ds) ==> d.key in KeyOrder(ds);
  }

  lemma EntryStep(m: Entries, ds: seq<Drop>, d: Drop, k: Key)
    requires Exact(m, ds) && k in Account(m, d)
    ensures Account(m, d)[k] == Value(Bytes(ds + [d], k), Count(ds + [d], k))
  {
    TotalsStep(ds, d, k);
    if k !in m {
      assert k == d.key && |Admitted(ds)| < MAX_ENTRIES;
      assert Admitted(ds) == KeyOrder(ds);
      UnseenTotals(ds, k);
    }
  }

  /** One more drop keeps the map exact. */
  lemma AccountIsExact(m: Entries, ds: seq<Drop>, d: Drop)
    requires Exact(m, ds)
    ensures Exact(Account(m, d), ds + [d])
  {
    AccountAdmits(m, ds, d);
    forall k | k in Account(m, d)
      ensures Account(m, d)[k] == Value(Bytes(ds + [d], k), Count(ds + [d], k))
    {
      EntryStep(m, ds, d, k);
    }
  }

  /** The map of a serial run is exact. */
  lemma {:induction false} RunIsExact(ds: seq<Drop>)
    ensures Exact(AccountAll(map[], ds), ds)
  {
    if ds != [] {
      var n := |ds| - 1;
      RunIsExact(ds[..n]);
      AccountIsExact(AccountAll(map[], ds[..n]), ds[..n], ds[n]);
      assert ds[..n] + [ds[n]] == ds;
    }
  }

  /** Every entry stands for at least one drop, and while there is room every dropped key has
      an entry. */
  lemma EntriesWereDropped(m: Entries, ds: seq<Drop>)
    requires Exact(m, ds)
    ensures forall k :: k in m ==> m[k].dropCounts > 0
    ensures |m| < MAX_ENTRIES ==> forall k :: k in m <==> Count(ds, k) > 0
  {
    forall k ensures k in KeyOrder(ds) <==> Count(ds, k) > 0 {
      KeyOrderMembers(ds, k);
    }
    assert forall k :: k in Admitted(ds) ==> k in KeyOrder(ds);
  }

  /** The 256th distinct pair gets an entry and the 257th does not. */
  lemma RoomFor256(ds: seq<Drop>, i: nat)
    requires i < |KeyOrder(ds)|
    ensures KeyOrder(ds)[i] in AccountAll(map[], ds) <==> i < 256
    ensures |AccountAll(map[], ds)| <= 256
  {
    RunIsExact(ds);
  }

  // ------------------------------------------------------------ totals of the packets

  /** A packet of at least 34 octets that is dropped, from and to the addresses of `k`. */
  ghost predicate IsDropFor(p: Packet, k: Key) {
    && |p| >= 34 && p[12] == 0x08 && p[13] == 0x00 && p[23] == 1
    && k == Key(p[26..30], p[30..34])
  }

  /** How many of the packets were dropped for `k`, and how many octets they had. */
  ghost function PacketCount(ps: seq<Packet>, k: Key): nat {
    if ps == [] then 0 else PacketCount(ps[..|ps| - 1], k) + if IsDropFor(ps[|ps| - 1], k) then 1 else 0
  }

  ghost function PacketBytes(ps: seq<Packet>, k: Key): nat {
    if ps == [] then 0
    else PacketBytes(ps[..|ps| - 1], k) + if IsDropFor(ps[|ps| - 1], k) then |ps[|ps| - 1]| else 0
  }

  lemma {:induction false} DropTotals(ps: seq<Packet>, k: Key)
    ensures Count(Drops(ps), k) == PacketCount(ps, k) && Bytes(Drops(ps), k) == PacketBytes(ps, k)
  {
    if ps != [] {
      var n := |ps| - 1;
      DropTotals(ps[..n], k);
      DecidingOctets(ps[n]);
      assert Drops(ps[..n]) + [] == Drops(ps[..n]);
      if IsDropped(ps[n]) { TotalsStep(Drops(ps[..n]), DropOf(ps[n]), k); }
    }
  }

  /** An exact map holds the totals of the packets themselves. */
  lemma ExactOnPackets(m: Entries, ps: seq<Packet>)
    requires Exact(m, Drops(ps))
    ensures forall k :: k in m ==> m[k] == Value(PacketBytes(ps, k), PacketCount(ps, k)) && m[k].dropCounts > 0
    ensures |m| <= 256
    ensures |m| < 256 ==> forall k :: k in m <==> PacketCount(ps, k) > 0
  {
    EntriesWereDropped(m, Drops(ps));
    forall k ensures Count(Drops(ps), k) == PacketCount(ps, k) && Bytes(Drops(ps), k) == PacketBytes(ps, k) {
      DropTotals(ps, k);
    }
  }

  // ------------------------------------------------------------ conservation

  ghost function SumCounts(m: Entries, ks: seq<Key>): int
    requires forall k :: k in ks ==> k in m
  {
    if ks == [] then 0 else SumCounts(m, ks[..|ks| - 1]) + m[ks[|ks| - 1]].dropCounts
  }

  /** The drops whose key did not get an entry. */
  ghost function Refused(ds: seq<Drop>, ks: seq<Key>): nat {
    if ds == [] then 0 else Refused(ds[..|ds| - 1], ks) + if ds[|ds| - 1].key in ks then 0 else 1
  }

  ghost function SumOfTotals(ds: seq<Drop>, ks: seq<Key>): nat {
    if ks == [] then 0 else SumOfTotals(ds, ks[..|ks| - 1]) + Count(ds, ks[|ks| - 1])
  }

  lemma {:induction false} OneMoreDrop(ds: seq<Drop>, ks: seq<Key>)
    requires ds != [] && forall i, j :: 0 <= i < j < |ks| ==> ks[i] != ks[j]
    ensures SumOfTotals(ds, ks) ==
            SumOfTotals(ds[..|ds| - 1], ks) + if ds[|ds| - 1].key in ks then 1 else 0
  {
    if ks != [] {
      var n := |ks| - 1;
      assert ks == ks[..n] + [ks[n]];
      OneMoreDrop(ds, ks[..n]);
    }
  }

  lemma {:induction false} NoDrops(ks: seq<Key>)
    ensures SumOfTotals([], ks) == 0
  {
    if ks != [] { NoDrops(ks[..|ks| - 1]); }
  }

  /** Over distinct keys, the totals and the refusals make up all drops. */
  lemma {:induction false} TotalsAndRefusals(ds: seq<Drop>, ks: seq<Key>)
    requires forall i, j :: 0 <= i < j < |ks| ==> ks[i] != ks[j]
    ensures SumOfTotals(ds, ks) + Refused(ds, ks) == |ds|
  {
    if ds == [] {
      NoDrops(ks);
    } else {
      OneMoreDrop(ds, ks);
      TotalsAndRefusals(ds[..|ds| - 1], ks);
    }
  }

  lemma {:induction false} SumOfExactCounts(m: Entries, ds: seq<Drop>, ks: seq<Key>)
    requires Exact(m, ds) && forall k :: k in ks ==> k in m
    ensures SumCounts(m, ks) == SumOfTotals(ds, ks)
  {
    if ks != [] { SumOfExactCounts(m, ds, ks[..|ks| - 1]); }
  }

  /** The counts in the map add up to all drops but those of refused keys. */
  lemma CountsAreConserved(m: Entries, ds: seq<Drop>)
    requires Exact(m, ds)
    ensures SumCounts(m, Admitted(ds)) == |ds| - Refused(ds, Admitted(ds))
  {
    SumOfExactCounts(m, ds, Admitted(ds));
    TotalsAndRefusals(ds, Admitted(ds));
  }

  /** Any sequence of packets, one after the other, from an empty map. */
  method ProcessAll(ps: seq<Packet>) returns (entries: Entries, verdicts: seq<Verdict>)
    ensures |verdicts| == |ps|
    ensures forall i :: 0 <= i < |ps| ==>
              && (verdicts[i] == Dropped <==> IsDropped(ps[i]))
              && (verdicts[i] == Aborted <==> IsAborted(ps[i]))
    ensures Exact(entries, Drops(ps))
    ensures forall k :: k in entries ==> entries[k] == Value(PacketBytes(ps, k), PacketCount(ps, k))
    ensures forall k :: k in entries ==> entries[k].dropCounts > 0
    ensures |entries| <= 256
    ensures |entries| < 256 ==> forall k :: k in entries <==> PacketCount(ps, k) > 0
    ensures SumCounts(entries, Admitted(Drops(ps))) == |Drops(ps)| - Refused(Drops(ps), Admitted(Drops(ps)))
  {
    var t := new DropMap();
    verdicts := [];
    for i := 0 to |ps|
      invariant |verdicts| == i
      invariant forall j :: 0 <= j < i ==>
                  && (verdicts[j] == Dropped <==> IsDropped(ps[j]))
                  && (verdicts[j] == Aborted <==> IsAborted(ps[j]))
      invariant t.entries == AccountAll(map[], Drops(ps[..i]))
    {
      var v := t.DropIcmp(ps[i]);
      verdicts := verdicts + [v];
      DropsStep(ps, i);
    }
    assert ps[..|ps|] == ps;
    entries := t.entries;
    RunIsExact(Drops(ps));
    ExactOnPackets(entries, ps);
    CountsAreConserved(entries, Drops(ps));
  }

  lemma DropsStep(ps: seq<Packet>, i: nat)
    requires i < |ps|
    ensures var ds := Drops(ps[..i]);
            && Drops(ps[..i + 1]) == ds + (if IsDropped(ps[i]) then [DropOf(ps[i])] else [])
            && AccountAll(map[], Drops(ps[..i + 1])) ==
               if IsDropped(ps[i]) then Account(AccountAll(map[], ds), DropOf(ps[i])) else AccountAll(map[], ds)
  {
    assert ps[..i + 1][..i] == ps[..i];
    var ds := Drops(ps[..i]);
    if IsDropped(ps[i]) {
      var d := DropOf(ps[i]);
      assert (ds + [d])[..|ds|] == ds && (ds + [d])[|ds|] == d;
    } else {
      assert ds + [] == ds;
    }
  }
}
