/**
The walk over the attributes of a route message: each one is a header of two 16-bit numbers
in host byte order, its length (header included) and its type, followed by its payload, and
starts at a multiple of four octets.
*/
module RouteAttributes {
  import opened Octets

  datatype ByteOrder = LittleEndian | BigEndian

  const HEADER := 4

  function U16(order: ByteOrder, b0: byte, b1: byte): (n: nat)
    ensures n < 0x1_0000
  {
    match order
    case LittleEndian => b0 as int + b1 as int * 256
    case BigEndian => b0 as int * 256 + b1 as int
  }

  /** The two octets of 8, of 256 and of any number, in either order. */
  lemma HostOrders(a: byte, b: byte)
    ensures U16(LittleEndian, 8, 0) == 8 && U16(BigEndian, 0, 8) == 8
    ensures U16(LittleEndian, 0, 1) == 256 && U16(BigEndian, 1, 0) == 256
    ensures U16(LittleEndian, a, b) == U16(BigEndian, b, a)
  {
  }

  /** RTA_ALIGN: the next multiple of four. */
  function Align(n: nat): (a: nat)
    ensures n <= a < n + 4 && a % 4 == 0
  {
    (n + 3) / 4 * 4
  }

  // ------------------------------------------------------------ the walk

  /** RTA_OK on what is left of the attribute area. */
  predicate RtaOk(order: ByteOrder, rest: seq<byte>) {
    && |rest| >= HEADER
    && HEADER <= U16(order, rest[0], rest[1]) <= |rest|
  }

  /** An attribute the walk comes across: where, and of what type. */
  datatype Seen = Seen(at: nat, kind: nat)

  /** What is left behind the first `n` octets. */
  function Behind(s: seq<byte>, n: nat): seq<byte> {
    s[if n < |s| then n else |s|..]
  }

  /** The attributes from offset `at` on, `rest` being what is left there. */
  ghost function Visits(order: ByteOrder, rest: seq<byte>, at: nat): seq<Seen>
    decreases |rest|
  {
    if !RtaOk(order, rest) then []
    else
      var step := Align(U16(order, rest[0], rest[1]));
      [Seen(at, U16(order, rest[2], rest[3]))] + Visits(order, Behind(rest, step), at + step)
  }

  /** The walk looks for attributes at multiples of four only. */
  lemma {:induction false} VisitsAligned(order: ByteOrder, rest: seq<byte>, at: nat)
    requires at % 4 == 0
    ensures forall v :: v in Visits(order, rest, at) ==> v.at % 4 == 0
    decreases |rest|
  {
    if RtaOk(order, rest) {
      var step := Align(U16(order, rest[0], rest[1]));
      VisitsAligned(order, Behind(rest, step), at + step);
    }
  }

  /** A length of 4 is the least that passes, and the most is what is left. */
  lemma ShortestAttribute(at: nat, kind: byte, len: byte)
    ensures Visits(LittleEndian, [len, 0, kind, 0], at) == if len == 4 then [Seen(at, kind)] else []
    ensures Visits(BigEndian, [0, len, 0, kind], at) == if len == 4 then [Seen(at, kind)] else []
  {
  }

  /** An attribute of five octets is followed by the next one three octets further on. */
  lemma PaddedExample()
    ensures Visits(LittleEndian, [5, 0, 7, 0, 1, 0, 0, 0] + [8, 0, 4, 0, 2, 0, 0, 0], 0) == [Seen(0, 7), Seen(8, 4)]
  {
    var first: seq<byte>, second: seq<byte> := [5, 0, 7, 0, 1, 0, 0, 0], [8, 0, 4, 0, 2, 0, 0, 0];
    MiddleAttribute(LittleEndian, first, second, 0);
    LastAttribute(LittleEndian, second, 8);
  }

  /** The last one of type `t`, or `none`. */
  ghost function LastOf(vs: seq<Seen>, t: nat, none: int): int {
    if vs == [] then none
    else if vs[|vs| - 1].kind == t then vs[|vs| - 1].at
    else LastOf(vs[..|vs| - 1], t, none)
  }

  lemma {:induction false} LastOfCons(v: Seen, vs: seq<Seen>, t: nat, none: int)
    ensures LastOf([v] + vs, t, none) == LastOf(vs, t, if v.kind == t then v.at else none)
  {
    if vs == [] {
      assert [v] + vs == [v] && [v][..0] == [];
    } else {
      var n := |vs| - 1;
      assert ([v] + vs)[..n + 1] == [v] + vs[..n];
      LastOfCons(v, vs[..n], t, none);
    }
  }

  /** What the walk still has to enter into the table. */
  ghost predicate Remains(tb: seq<int>, vs: seq<Seen>, target: seq<int>) {
    |tb| == |target| && forall t :: 0 <= t < |tb| ==> target[t] == LastOf(vs, t, tb[t])
  }

  lemma Entered(tb: seq<int>, v: Seen, vs: seq<Seen>, target: seq<int>)
    requires Remains(tb, [v] + vs, target)
    ensures Remains(if v.kind < |tb| then tb[v.kind := v.at] else tb, vs, target)
  {
    forall t | 0 <= t < |tb| ensures LastOf([v] + vs, t, tb[t]) == LastOf(vs, t, if v.kind == t then v.at else tb[t]) {
      LastOfCons(v, vs, t, tb[t]);
    }
  }

  /** The table after the walk. */
  ghost function Filled(tb: seq<int>, vs: seq<Seen>): (r: seq<int>)
    ensures |r| == |tb|
    ensures forall t :: 0 <= t < |tb| ==> r[t] == LastOf(vs, t, tb[t])
  {
    seq(|tb|, t requires 0 <= t < |tb| => LastOf(vs, t, tb[t]))
  }

  /** The attributes from position `rta` of the area on; past its end there are none. */
  ghost function VisitsFrom(order: ByteOrder, area: seq<byte>, rta: nat): seq<Seen> {
    Visits(order, Behind(area, rta), rta)
  }

  lemma VisitsUnfold(order: ByteOrder, b: seq<byte>, len: nat, kind: nat, at: nat)
    requires |b| >= HEADER && len == U16(order, b[0], b[1]) && kind == U16(order, b[2], b[3])
    requires HEADER <= len <= |b|
    ensures Visits(order, b, at) == [Seen(at, kind)] + Visits(order, Behind(b, Align(len)), at + Align(len))
  {
  }

  lemma VisitStep(order: ByteOrder, area: seq<byte>, rta: nat, rtaLen: nat, kind: nat)
    requires rta + HEADER <= |area| && HEADER <= rtaLen <= |area| - rta
    requires rtaLen == U16(order, area[rta], area[rta + 1]) && kind == U16(order, area[rta + 2], area[rta + 3])
    ensures VisitsFrom(order, area, rta) == [Seen(rta, kind)] + VisitsFrom(order, area, rta + Align(rtaLen))
  {
    var rest := area[rta..];
    assert rest[0] == area[rta] && rest[1] == area[rta + 1] && rest[2] == area[rta + 2] && rest[3] == area[rta + 3];
    BehindBehind(area, rta, Align(rtaLen));
  }

  lemma BehindBehind(s: seq<byte>, i: nat, n: nat)
    requires i <= |s|
    ensures Behind(s[i..], n) == Behind(s, i + n)
  {
    if i + n <= |s| { SuffixOfSuffix(s, i, n); }
  }

  lemma WalkIsOver(order: ByteOrder, area: seq<byte>, rta: nat)
    requires rta + HEADER <= |area| ==> !(HEADER <= U16(order, area[rta], area[rta + 1]) <= |area| - rta)
    ensures VisitsFrom(order, area, rta) == []
  {
  }

  /** Types beyond the table are ignored. */
  method Enter(tb: array<int>, max: nat, kind: nat, rta: nat, ghost vs: seq<Seen>, ghost target: seq<int>)
    requires tb.Length == max + 1 && Remains(tb[..], [Seen(rta, kind)] + vs, target)
    modifies tb
    ensures Remains(tb[..], vs, target)
  {
    Entered(tb[..], Seen(rta, kind), vs, target);
    if kind <= max {
      tb[kind] := rta;
    }
  }

  /** The body of the loop: one attribute is entered, and RTA_NEXT moves on to the next. */
  method ParseOne(order: ByteOrder, tb: array<int>, max: nat, area: seq<byte>, rta: nat, len: int,
                  ghost target: seq<int>)
    returns (rta': nat, len': int)
    requires tb.Length == max + 1 && rta + len == |area|
    requires len >= HEADER && HEADER <= U16(order, area[rta], area[rta + 1]) <= len
    requires Remains(tb[..], VisitsFrom(order, area, rta), target)
    modifies tb
    ensures rta' + len' == |area| && len' < len
    ensures Remains(tb[..], VisitsFrom(order, area, rta'), target)
  {
    var rtaLen := U16(order, area[rta], area[rta + 1]);
    var kind := U16(order, area[rta + 2], area[rta + 3]);
    var step := Align(rtaLen);
    VisitStep(order, area, rta, rtaLen, kind);
    Enter(tb, max, kind, rta, VisitsFrom(order, area, rta + step), target);
    len' := len - step;
    rta' := rta + step;
  }

  /** parse_route_attributes on an attribute area of exactly `len` octets. An entry of `tb`
      is the offset of an attribute. The table has `max + 1` entries. */
  method ParseRouteAttributes(order: ByteOrder, tb: array<int>, max: nat, area: seq<byte>)
    requires tb.Length == max + 1
    modifies tb
    ensures tb[..] == Filled(old(tb[..]), Visits(order, area, 0))
  {
    ghost var target := Filled(tb[..], Visits(order, area, 0));
    var rta, len := 0, |area|;
    assert Behind(area, 0) == area;
    while len >= HEADER && HEADER <= U16(order, area[rta], area[rta + 1]) <= len
      invariant 0 <= rta && rta + len == |area|
      invariant Remains(tb[..], VisitsFrom(order, area, rta), target)
      decreases len
    {
      rta, len := ParseOne(order, tb, max, area, rta, len, target);
    }
    WalkIsOver(order, area, rta);
    assert tb[..] == target;
  }

  // ------------------------------------------------------------ laying out

  function LengthOf(order: ByteOrder, raw: seq<byte>): nat
    requires |raw| >= HEADER
  {
    U16(order, raw[0], raw[1])
  }

  function KindOf(order: ByteOrder, raw: seq<byte>): nat
    requires |raw| >= HEADER
  {
    U16(order, raw[2], raw[3])
  }

  /** The octets of one attribute, with padding to the next multiple of four at most: its
      length and what it takes up begin the same number of groups of four. */
  ghost predicate IsAttribute(order: ByteOrder, raw: seq<byte>) {
    && |raw| >= 4
    && 4 <= LengthOf(order, raw) <= |raw|
    && (LengthOf(order, raw) + 3) / 4 == (|raw| + 3) / 4
  }

  /** It takes up whole groups of four, and no more than it needs. */
  ghost predicate IsPadded(order: ByteOrder, raw: seq<byte>) {
    |raw| >= 4 && 4 <= LengthOf(order, raw) <= |raw| < LengthOf(order, raw) + 4 && |raw| % 4 == 0
  }

  lemma GroupsOfFour(n: nat, m: nat)
    requires n <= m
    ensures m < n + 4 && m % 4 == 0 <==> m == Align(n)
    ensures (n + 3) / 4 == (m + 3) / 4 <==> m <= Align(n)
  {
    var a := (n + 3) / 4;
    assert 4 * a - 4 < n <= 4 * a;
  }

  lemma PaddedIsAligned(order: ByteOrder, raw: seq<byte>)
    ensures IsPadded(order, raw) <==> IsAttribute(order, raw) && |raw| == Align(LengthOf(order, raw))
    ensures IsAttribute(order, raw) ==> |raw| <= Align(LengthOf(order, raw))
  {
    if |raw| >= 4 && LengthOf(order, raw) <= |raw| { GroupsOfFour(LengthOf(order, raw), |raw|); }
  }

  ghost function PayloadOf(order: ByteOrder, raw: seq<byte>): seq<byte>
    requires IsAttribute(order, raw)
  {
    raw[HEADER..LengthOf(order, raw)]
  }

  /** All but possibly the last attribute are padded to the full. */
  ghost predicate WellLaidOut(order: ByteOrder, raws: seq<seq<byte>>) {
    && (forall i :: 0 <= i < |raws| ==> IsAttribute(order, raws[i]))
    && (forall i :: 0 <= i < |raws| - 1 ==> IsPadded(order, raws[i]))
  }

  ghost function Layout(raws: seq<seq<byte>>): seq<byte> {
    if raws == [] then [] else raws[0] + Layout(raws[1..])
  }

  /** Where the attributes start, and of what type they are. */
  ghost function Starts(order: ByteOrder, raws: seq<seq<byte>>, at: nat): (vs: seq<Seen>)
    requires forall i :: 0 <= i < |raws| ==> |raws[i]| >= HEADER
    ensures |vs| == |raws|
  {
    if raws == [] then [] else [Seen(at, KindOf(order, raws[0]))] + Starts(order, raws[1..], at + |raws[0]|)
  }

  /** A padded attribute is seen, and the walk goes on right behind it. */
  lemma MiddleAttribute(order: ByteOrder, raw: seq<byte>, rest: seq<byte>, at: nat)
    requires IsPadded(order, raw)
    ensures Visits(order, raw + rest, at) ==
            [Seen(at, KindOf(order, raw))] + Visits(order, rest, at + |raw|)
  {
    var b := raw + rest;
    PaddedIsAligned(order, raw);
    assert b[0] == raw[0] && b[1] == raw[1] && b[2] == raw[2] && b[3] == raw[3];
    VisitsUnfold(order, b, LengthOf(order, raw), KindOf(order, raw), at);
    assert Behind(b, |raw|) == rest;
  }

  /** Behind the last attribute nothing is left that could be taken for another one. */
  lemma LastAttribute(order: ByteOrder, raw: seq<byte>, at: nat)
    requires IsAttribute(order, raw)
    ensures Visits(order, raw, at) == [Seen(at, KindOf(order, raw))]
  {
    var step := Align(LengthOf(order, raw));
    assert Visits(order, Behind(raw, step), at + step) == [];
  }

  lemma TailLaidOut(order: ByteOrder, raws: seq<seq<byte>>)
    requires WellLaidOut(order, raws) && |raws| > 1
    ensures WellLaidOut(order, raws[1..])
    ensures IsPadded(order, raws[0])
  {
    var tail := raws[1..];
    forall i | 0 <= i < |tail| - 1 ensures IsPadded(order, tail[i]) {
      assert tail[i] == raws[i + 1];
    }
  }

  /** The walk over a laid-out area comes across exactly the attributes laid out. */
  lemma {:induction false} VisitsLayout(order: ByteOrder, raws: seq<seq<byte>>, at: nat)
    requires WellLaidOut(order, raws)
    ensures Visits(order, Layout(raws), at) == Starts(order, raws, at)
  {
    if |raws| == 1 {
      LastAttribute(order, raws[0], at);
      assert raws[1..] == [] && raws[0] + [] == raws[0];
      assert Visits(order, Layout(raws), at) == Starts(order, raws, at);
    } else if |raws| > 1 {
      var raw, tail := raws[0], raws[1..];
      TailLaidOut(order, raws);
      VisitsLayout(order, tail, at + |raw|);
      var rest, vs := Layout(tail), Starts(order, tail, at + |raw|);
      assert Layout(raws) == raw + rest;
      assert Starts(order, raws, at) == [Seen(at, KindOf(order, raw))] + vs;
      assert Visits(order, raw + rest, at) == [Seen(at, KindOf(order, raw))] + vs by {
        MiddleAttribute(order, raw, rest, at);
      }
    }
  }

  lemma {:induction false} StartsKinds(order: ByteOrder, raws: seq<seq<byte>>, at: nat)
    requires forall i :: 0 <= i < |raws| ==> |raws[i]| >= HEADER
    ensures forall i :: 0 <= i < |raws| ==> Starts(order, raws, at)[i].kind == KindOf(order, raws[i])
  {
    if raws != [] { StartsKinds(order, raws[1..], at + |raws[0]|); }
  }

  lemma {:induction false} LastOfIsLast(vs: seq<Seen>, t: nat, none: int, i: nat)
    requires i < |vs| && vs[i].kind == t && forall j :: i < j < |vs| ==> vs[j].kind != t
    ensures LastOf(vs, t, none) == vs[i].at
  {
    if i < |vs| - 1 { LastOfIsLast(vs[..|vs| - 1], t, none, i); }
  }

  lemma {:induction false} LastOfNone(vs: seq<Seen>, t: nat, none: int)
    requires forall j :: 0 <= j < |vs| ==> vs[j].kind != t
    ensures LastOf(vs, t, none) == none
  {
    if vs != [] { LastOfNone(vs[..|vs| - 1], t, none); }
  }

  /** After parsing a laid-out area, the entry of a type is where the last attribute of that
      type starts. */
  lemma LastAttributeWins(order: ByteOrder, raws: seq<seq<byte>>, tb: seq<int>, i: nat)
    requires WellLaidOut(order, raws) && i < |raws| && KindOf(order, raws[i]) < |tb|
    requires forall j :: i < j < |raws| ==> KindOf(order, raws[j]) != KindOf(order, raws[i])
    ensures Filled(tb, Visits(order, Layout(raws), 0))[KindOf(order, raws[i])] == Starts(order, raws, 0)[i].at
  {
    var t, vs := KindOf(order, raws[i]), Starts(order, raws, 0);
    VisitsLayout(order, raws, 0);
    StartsKinds(order, raws, 0);
    assert forall j :: i < j < |vs| ==> vs[j].kind == KindOf(order, raws[j]);
    LastOfIsLast(vs, t, tb[t], i);
  }

  /** A type that does not occur leaves its entry alone. */
  lemma AbsentTypeUntouched(order: ByteOrder, raws: seq<seq<byte>>, tb: seq<int>, t: nat)
    requires WellLaidOut(order, raws) && t < |tb|
    requires forall j :: 0 <= j < |raws| ==> KindOf(order, raws[j]) != t
    ensures Filled(tb, Visits(order, Layout(raws), 0))[t] == tb[t]
  {
    var vs := Starts(order, raws, 0);
    VisitsLayout(order, raws, 0);
    StartsKinds(order, raws, 0);
    assert forall j :: 0 <= j < |vs| ==> vs[j].kind == KindOf(order, raws[j]);
    LastOfNone(vs, t, tb[t]);
  }

  lemma SliceBehind(front: seq<byte>, rest: seq<byte>, p: nat, q: nat)
    requires p <= q <= |rest|
    ensures (front + rest)[|front| + p..|front| + q] == rest[p..q]
  {
  }

  /** At its start stands the attribute, all of it inside the area. */
  lemma {:induction false} AttributeAtStart(order: ByteOrder, raws: seq<seq<byte>>, at: nat, i: nat) returns (p: nat)
    requires (forall j :: 0 <= j < |raws| ==> |raws[j]| >= HEADER) && i < |raws|
    ensures Starts(order, raws, at)[i].at == at + p
    ensures p + |raws[i]| <= |Layout(raws)| && Layout(raws)[p..p + |raws[i]|] == raws[i]
  {
    var one, tail := raws[0], raws[1..];
    var rest := Layout(tail);
    if i == 0 {
      p := 0;
      assert (one + rest)[0..|one|] == one;
    } else {
      var q := AttributeAtStart(order, tail, at + |one|, i - 1);
      p := |one| + q;
      SliceBehind(one, rest, q, q + |raws[i]|);
      StartBehind(order, raws, at, i);
    }
  }

  lemma StartBehind(order: ByteOrder, raws: seq<seq<byte>>, at: nat, i: nat)
    requires (forall j :: 0 <= j < |raws| ==> |raws[j]| >= HEADER) && 0 < i < |raws|
    ensures Starts(order, raws, at)[i] == Starts(order, raws[1..], at + |raws[0]|)[i - 1]
  {
  }

  // ------------------------------------------------------------ the caller's length

  /** The message header and the route header in front of the attributes. The caller passes
      the length of the whole message, so the walk takes as many octets behind the attributes
      for part of them. */
  const MESSAGE_HEADERS := 28

  ghost predicate FullyPadded(order: ByteOrder, raws: seq<seq<byte>>) {
    forall i :: 0 <= i < |raws| ==> IsPadded(order, raws[i])
  }

  lemma FirstOfLayout(order: ByteOrder, raws: seq<seq<byte>>, behind: seq<byte>)
    requires FullyPadded(order, raws) && raws != []
    ensures Layout(raws) + behind == raws[0] + (Layout(raws[1..]) + behind)
    ensures |Layout(raws)| == |raws[0]| + |Layout(raws[1..])|
    ensures FullyPadded(order, raws[1..])
    ensures IsPadded(order, raws[0])
  {
    assert Layout(raws) == raws[0] + Layout(raws[1..]);
  }

  lemma StartsUnfold(order: ByteOrder, raws: seq<seq<byte>>, at: nat, more: seq<Seen>)
    requires raws != [] && forall i :: 0 <= i < |raws| ==> |raws[i]| >= HEADER
    ensures [Seen(at, KindOf(order, raws[0]))] + (Starts(order, raws[1..], at + |raws[0]|) + more) ==
            Starts(order, raws, at) + more
  {
  }

  /** One attribute in front of what the walk is known to come across. */
  lemma BeyondStep(order: ByteOrder, raws: seq<seq<byte>>, rest: seq<byte>, at: nat, more: seq<Seen>)
    requires FullyPadded(order, raws) && raws != []
    requires Visits(order, rest, at + |raws[0]|) == Starts(order, raws[1..], at + |raws[0]|) + more
    ensures Visits(order, raws[0] + rest, at) == Starts(order, raws, at) + more
  {
    MiddleAttribute(order, raws[0], rest, at);
    StartsUnfold(order, raws, at, more);
  }

  /** The walk goes on behind a fully padded area. */
  lemma {:induction false} VisitsBeyond(order: ByteOrder, raws: seq<seq<byte>>, behind: seq<byte>, at: nat,
                                        area: seq<byte>, end: nat)
    requires FullyPadded(order, raws) && area == Layout(raws) + behind && end == at + |Layout(raws)|
    ensures Visits(order, area, at) == Starts(order, raws, at) + Visits(order, behind, end)
  {
    var more := Visits(order, behind, end);
    if raws == [] {
      assert area == behind && Starts(order, raws, at) + more == more;
    } else {
      var rest := Layout(raws[1..]) + behind;
      FirstOfLayout(order, raws, behind);
      VisitsBeyond(order, raws[1..], behind, at + |raws[0]|, rest, end);
      BeyondStep(order, raws, rest, at, more);
    }
  }

  /** The offsets at which the walk reads a length. */
  ghost function LengthsRead(order: ByteOrder, rest: seq<byte>, at: nat): seq<nat>
    decreases |rest|
  {
    if |rest| < HEADER then []
    else if !RtaOk(order, rest) then [at]
    else
      var step := Align(U16(order, rest[0], rest[1]));
      [at] + LengthsRead(order, Behind(rest, step), at + step)
  }

  lemma LengthsUnfold(order: ByteOrder, b: seq<byte>, len: nat, at: nat)
    requires |b| >= HEADER && len == U16(order, b[0], b[1]) && HEADER <= len <= |b|
    ensures LengthsRead(order, b, at) == [at] + LengthsRead(order, Behind(b, Align(len)), at + Align(len))
  {
  }

  lemma PassesAttribute(order: ByteOrder, raw: seq<byte>, rest: seq<byte>, at: nat)
    requires IsPadded(order, raw)
    ensures LengthsRead(order, raw + rest, at) == [at] + LengthsRead(order, rest, at + |raw|)
  {
    var b := raw + rest;
    PaddedIsAligned(order, raw);
    assert b[0] == raw[0] && b[1] == raw[1];
    LengthsUnfold(order, b, LengthOf(order, raw), at);
    assert Behind(b, |raw|) == rest;
  }

  /** With the caller's length the walk always reads a length right behind the attributes. */
  lemma {:induction false} ReadsBehind(order: ByteOrder, raws: seq<seq<byte>>, behind: seq<byte>, at: nat,
                                       area: seq<byte>, end: nat)
    requires FullyPadded(order, raws) && area == Layout(raws) + behind && end == at + |Layout(raws)|
    requires |behind| == MESSAGE_HEADERS
    ensures end in LengthsRead(order, area, at)
  {
    if raws == [] {
      assert area == behind;
      assert LengthsRead(order, behind, at)[0] == at;
    } else {
      var raw, tail := raws[0], raws[1..];
      var rest := Layout(tail) + behind;
      FirstOfLayout(order, raws, behind);
      ReadsBehind(order, tail, behind, at + |raw|, rest, end);
      PassesAttribute(order, raw, rest, at);
    }
  }

  /** With the caller's length the walk comes across exactly the attributes laid out if and
      only if the number behind them is no length an attribute could have there. Otherwise
      it enters a phantom attribute, which starts where they end. */
  lemma PhantomIff(order: ByteOrder, raws: seq<seq<byte>>, behind: seq<byte>)
    requires FullyPadded(order, raws) && |behind| == MESSAGE_HEADERS
    ensures var vs := Visits(order, Layout(raws) + behind, 0);
            var phantom := HEADER <= LengthOf(order, behind) <= MESSAGE_HEADERS;
            && (vs == Starts(order, raws, 0) <==> !phantom)
            && (phantom ==> |vs| > |raws| && vs[|raws|] == Seen(|Layout(raws)|, KindOf(order, behind)))
  {
    VisitsBeyond(order, raws, behind, 0, Layout(raws) + behind, |Layout(raws)|);
    assert |Visits(order, behind, |Layout(raws)|)| > 0 <==> RtaOk(order, behind);
  }

  /** The 32-bit length of a message that starts here, in little-endian order. */
  function MessageLength(b: seq<byte>): nat
    requires |b| >= HEADER
  {
    LengthOf(LittleEndian, b) + KindOf(LittleEndian, b) * 0x1_0000
  }

  /** A message taken for attributes: one phantom of type 0 if it is short, and what the
      octets behind it look like; none if it is not. */
  lemma MessageAsAttributes(behind: seq<byte>, end: nat)
    requires |behind| == MESSAGE_HEADERS && MessageLength(behind) < 0x1_0000
    ensures var next := MessageLength(behind);
            Visits(LittleEndian, behind, end) ==
            if HEADER <= next <= MESSAGE_HEADERS
            then [Seen(end, 0)] + Visits(LittleEndian, Behind(behind, Align(next)), end + Align(next))
            else []
  {
    assert KindOf(LittleEndian, behind) == 0;
  }

  /** Behind a message stands the next one. In little-endian order the walk comes across
      exactly the attributes unless the next message has 4 to 28 octets. If it has, the walk
      enters a phantom of type 0 and goes on behind that message. */
  lemma ShortNextMessage(raws: seq<seq<byte>>, behind: seq<byte>, area: seq<byte>, end: nat)
    requires FullyPadded(LittleEndian, raws) && area == Layout(raws) + behind && end == |Layout(raws)|
    requires |behind| == MESSAGE_HEADERS && MessageLength(behind) < 0x1_0000
    ensures var next, vs := MessageLength(behind), Starts(LittleEndian, raws, 0);
            Visits(LittleEndian, area, 0) ==
            vs + if HEADER <= next <= MESSAGE_HEADERS
                 then [Seen(end, 0)] + Visits(LittleEndian, Behind(behind, Align(next)), end + Align(next))
                 else []
  {
    VisitsBeyond(LittleEndian, raws, behind, 0, area, end);
    MessageAsAttributes(behind, end);
  }

  lemma NothingLeft(order: ByteOrder, rest: seq<byte>, at: nat)
    ensures Visits(order, rest, at) == [] <==> !RtaOk(order, rest)
  {
  }

  /** The message that ends a dump has 20 octets. Behind it eight more octets pass for
      attributes; the phantom of type 0 is the only one if and only if they do not start with
      a length of 4 to 8. */
  lemma DoneMessageBehind(raws: seq<seq<byte>>, behind: seq<byte>, area: seq<byte>, end: nat)
    requires FullyPadded(LittleEndian, raws) && area == Layout(raws) + behind && end == |Layout(raws)|
    requires |behind| == MESSAGE_HEADERS && MessageLength(behind) == 20
    ensures Visits(LittleEndian, area, 0) == Starts(LittleEndian, raws, 0) + [Seen(end, 0)] <==>
            !(HEADER <= LengthOf(LittleEndian, behind[20..]) <= 8)
  {
    var rest := behind[20..];
    assert Behind(behind, Align(20)) == rest;
    ShortNextMessage(raws, behind, area, end);
    NothingLeft(LittleEndian, rest, end + Align(20));
    OnlyOneMore(Starts(LittleEndian, raws, 0), Seen(end, 0), Visits(LittleEndian, rest, end + Align(20)));
  }

  lemma OnlyOneMore(vs: seq<Seen>, v: Seen, more: seq<Seen>)
    ensures vs + ([v] + more) == vs + [v] <==> more == []
  {
    assert |vs + ([v] + more)| == |vs| + 1 + |more|;
    if more == [] { assert [v] + more == [v]; }
  }

  // ------------------------------------------------------------ what phantoms do

  lemma {:induction false} LastOfConcat(vs: seq<Seen>, ws: seq<Seen>, t: nat, none: int)
    ensures LastOf(vs + ws, t, none) == LastOf(ws, t, LastOf(vs, t, none))
  {
    if ws == [] {
      assert vs + ws == vs;
    } else {
      var n := |ws| - 1;
      assert (vs + ws)[..|vs| + n] == vs + ws[..n] && (vs + ws)[|vs| + n] == ws[n];
      LastOfConcat(vs, ws[..n], t, none);
    }
  }

  /** The walk only moves forward. */
  lemma {:induction false} VisitsForward(order: ByteOrder, rest: seq<byte>, at: nat)
    ensures forall v :: v in Visits(order, rest, at) ==> at <= v.at
    decreases |rest|
  {
    if RtaOk(order, rest) {
      var step := Align(U16(order, rest[0], rest[1]));
      VisitsForward(order, Behind(rest, step), at + step);
    }
  }

  lemma {:induction false} StartsInside(order: ByteOrder, raws: seq<seq<byte>>, at: nat)
    requires forall i :: 0 <= i < |raws| ==> |raws[i]| >= HEADER
    ensures forall v :: v in Starts(order, raws, at) ==> v.at < at + |Layout(raws)|
  {
    if raws != [] { StartsInside(order, raws[1..], at + |raws[0]|); }
  }

  lemma {:induction false} LastOfBound(vs: seq<Seen>, t: nat, none: int, end: int)
    requires none < end && forall v :: v in vs ==> v.at < end
    ensures LastOf(vs, t, none) < end
  {
    if vs != [] {
      var n := |vs| - 1;
      assert vs[n] in vs && forall v :: v in vs[..n] ==> v in vs;
      LastOfBound(vs[..n], t, none, end);
    }
  }

  lemma {:induction false} LastOfFound(vs: seq<Seen>, t: nat, none: int, end: int, j: nat)
    requires j < |vs| && vs[j].kind == t && forall v :: v in vs ==> end <= v.at
    ensures LastOf(vs, t, none) >= end
  {
    var n := |vs| - 1;
    if vs[n].kind == t {
      assert vs[n] in vs;
    } else {
      assert forall v :: v in vs[..n] ==> v in vs;
      LastOfFound(vs[..n], t, none, end, j);
    }
  }

  /** With the caller's length an entry that pointed nowhere behind the attributes ends as it
      should if and only if no phantom has its type. */
  lemma PhantomsTouchTheirTypes(order: ByteOrder, raws: seq<seq<byte>>, behind: seq<byte>, tb: seq<int>, t: nat)
    requires FullyPadded(order, raws) && t < |tb| && tb[t] < |Layout(raws)|
    ensures Filled(tb, Visits(order, Layout(raws) + behind, 0))[t] == Filled(tb, Starts(order, raws, 0))[t] <==>
            forall v :: v in Visits(order, behind, |Layout(raws)|) ==> v.kind != t
  {
    var end, vs := |Layout(raws)|, Starts(order, raws, 0);
    var ws := Visits(order, behind, end);
    VisitsBeyond(order, raws, behind, 0, Layout(raws) + behind, end);
    LastOfConcat(vs, ws, t, tb[t]);
    StartsInside(order, raws, 0);
    LastOfBound(vs, t, tb[t], end);
    VisitsForward(order, behind, end);
    if j: nat :| j < |ws| && ws[j].kind == t {
      LastOfFound(ws, t, LastOf(vs, t, tb[t]), end, j);
    } else {
      LastOfNone(ws, t, LastOf(vs, t, tb[t]));
    }
  }

  /** In that case all entries but that of type 0 end as they should. */
  lemma DoneMessageIsHarmless(raws: seq<seq<byte>>, behind: seq<byte>, tb: seq<int>, t: nat)
    requires FullyPadded(LittleEndian, raws) && 0 < t < |tb| && tb[t] < |Layout(raws)|
    requires |behind| == MESSAGE_HEADERS && MessageLength(behind) == 20
    requires !(HEADER <= LengthOf(LittleEndian, behind[20..]) <= 8)
    ensures Filled(tb, Visits(LittleEndian, Layout(raws) + behind, 0))[t] ==
            Filled(tb, Starts(LittleEndian, raws, 0))[t]
  {
    var rest, end := behind[20..], |Layout(raws)|;
    assert Behind(behind, Align(20)) == rest;
    MessageAsAttributes(behind, end);
    NothingLeft(LittleEndian, rest, end + Align(20));
    PhantomsTouchTheirTypes(LittleEndian, raws, behind, tb, t);
  }

  // ------------------------------------------------------------ any type, any payload

  function Bytes16(order: ByteOrder, n: nat): (b: seq<byte>)
    requires n < 0x1_0000
    ensures |b| == 2 && U16(order, b[0], b[1]) == n
  {
    match order
    case LittleEndian => [n % 256, n / 256]
    case BigEndian => [n / 256, n % 256]
  }

  /** Every type and payload of suitable size can be laid out, and reads back. */
  lemma AttributeExists(order: ByteOrder, kind: nat, payload: seq<byte>, padding: seq<byte>) returns (raw: seq<byte>)
    requires kind < 0x1_0000 && HEADER + |payload| < 0x1_0000
    requires (4 + |payload| + 3) / 4 == (4 + |payload| + |padding| + 3) / 4
    ensures IsAttribute(order, raw) && |raw| == HEADER + |payload| + |padding|
    ensures KindOf(order, raw) == kind && PayloadOf(order, raw) == payload
  {
    var x, y := Bytes16(order, HEADER + |payload|), Bytes16(order, kind);
    raw := x + y + payload + padding;
    assert raw[0] == x[0] && raw[1] == x[1] && raw[2] == y[0] && raw[3] == y[1];
  }
}
