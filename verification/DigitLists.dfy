/**
Lists of digits read as numbers: by the interleaved Horner loop, by summing positions, and
compared without computing a number at all.
*/
module DigitLists {
  import opened LinkedList

  // ------------------------------------------------------------ numbers

  function Pow10(e: nat): (p: nat)
    ensures p >= 1
  {
    if e == 0 then 1 else 10 * Pow10(e - 1)
  }

  /** Reading digits from the left, as the running loop does. */
  ghost function Horner(s: seq<int>): int {
    if s == [] then 0 else Horner(s[..|s| - 1]) * 10 + s[|s| - 1]
  }

  /** Every digit times the power of ten of its place. */
  ghost function Positional(s: seq<int>): int {
    if s == [] then 0 else s[0] * Pow10(|s| - 1) + Positional(s[1..])
  }

  lemma {:induction false} PositionalSnoc(s: seq<int>, d: int)
    ensures Positional(s + [d]) == Positional(s) * 10 + d
  {
    if s == [] {
      assert ([d])[1..] == [] && s + [d] == [d];
    } else {
      assert (s + [d])[1..] == s[1..] + [d];
      PositionalSnoc(s[1..], d);
      assert Pow10(|s|) == 10 * Pow10(|s| - 1);
      assert s[0] * (10 * Pow10(|s| - 1)) == (s[0] * Pow10(|s| - 1)) * 10;
    }
  }

  /** The running loop computes the positional value, for any values whatever. */
  lemma {:induction false} HornerIsPositional(s: seq<int>)
    ensures Horner(s) == Positional(s)
  {
    if s != [] {
      var front, d := s[..|s| - 1], s[|s| - 1];
      HornerIsPositional(front);
      PositionalSnoc(front, d);
      assert s == front + [d];
    }
  }

  ghost predicate Digits(s: seq<int>) {
    forall i :: 0 <= i < |s| ==> 0 <= s[i] <= 9
  }

  ghost predicate NoLeadingZero(s: seq<int>) {
    |s| > 1 ==> s[0] != 0
  }

  lemma {:induction false} DigitsBound(s: seq<int>)
    requires Digits(s)
    ensures 0 <= Positional(s) < Pow10(|s|)
  {
    if s != [] {
      DigitsBound(s[1..]);
      var p := Pow10(|s| - 1);
      assert 0 <= s[0] * p <= 9 * p;
    }
  }

  lemma AtLeastOnce(a: int, p: int)
    requires a >= 1 && p >= 0
    ensures a * p >= p
  {
    assert (a - 1) * p >= 0;
  }

  lemma LeadingDigitBound(s: seq<int>)
    requires Digits(s) && s != [] && s[0] != 0
    ensures Pow10(|s| - 1) <= Positional(s)
  {
    DigitsBound(s[1..]);
    AtLeastOnce(s[0], Pow10(|s| - 1));
  }

  lemma {:induction false} Pow10Monotone(d: nat, e: nat)
    requires d <= e
    ensures Pow10(d) <= Pow10(e)
    decreases e
  {
    if d < e { Pow10Monotone(d, e - 1); }
  }

  lemma {:induction false} Pow10Sum(d: nat, e: nat)
    ensures Pow10(d + e) == Pow10(d) * Pow10(e)
  {
    if d > 0 {
      Pow10Sum(d - 1, e);
      assert 10 * (Pow10(d - 1) * Pow10(e)) == (10 * Pow10(d - 1)) * Pow10(e);
    }
  }

  // ------------------------------------------------------------ machine integers

  const INT_MAX := 0x7fff_ffff

  predicate InInt32(x: int) {
    -INT_MAX - 1 <= x <= INT_MAX
  }

  lemma Pow10Nine()
    ensures Pow10(9) == 1_000_000_000
  {
    assert Pow10(3) == 1000;
    Pow10Sum(3, 3);
    Pow10Sum(6, 3);
  }

  /** Reading the digit at `k` leaves the 32-bit range neither in the multiplication nor in
      the addition. */
  ghost predicate StepFits(s: seq<int>, k: nat)
    requires k < |s|
  {
    InInt32(Horner(s[..k]) * 10) && InInt32(Horner(s[..k]) * 10 + s[k])
  }

  ghost predicate NeverOverflows(s: seq<int>) {
    forall k :: 0 <= k < |s| ==> StepFits(s, k)
  }

  lemma HornerPrefix(s: seq<int>, k: nat)
    requires k < |s|
    ensures Horner(s[..k + 1]) == Horner(s[..k]) * 10 + s[k]
  {
    assert s[..k + 1][..k] == s[..k];
  }

  /** A digit list is worth at least as much as any of its beginnings. */
  lemma {:induction false} PrefixIsSmaller(s: seq<int>, k: nat)
    requires Digits(s) && k <= |s|
    ensures 0 <= Horner(s[..k]) <= Horner(s)
    decreases |s| - k
  {
    if k < |s| {
      PrefixIsSmaller(s, k + 1);
      HornerPrefix(s, k);
      HornerIsPositional(s[..k]);
      DigitsBound(s[..k]);
    } else {
      assert s[..k] == s;
      HornerIsPositional(s);
      DigitsBound(s);
    }
  }

  /** The running loop stays in the 32-bit range if and only if the number it reads does. */
  lemma FitsIffNumberFits(s: seq<int>)
    requires Digits(s)
    ensures NeverOverflows(s) <==> Positional(s) <= INT_MAX
  {
    HornerIsPositional(s);
    if s != [] {
      var n := |s| - 1;
      HornerPrefix(s, n);
      assert s[..n + 1] == s;
      assert StepFits(s, n) ==> Positional(s) <= INT_MAX;
    }
    if Positional(s) <= INT_MAX {
      forall k | 0 <= k < |s| ensures StepFits(s, k) {
        HornerPrefix(s, k);
        PrefixIsSmaller(s, k);
        PrefixIsSmaller(s, k + 1);
      }
    }
  }

  /** The digits of INT_MAX but the last, and all of them. */
  const INT_MAX_FRONT: seq<int> := [2, 1, 4] + [7, 4, 8] + [3, 6, 4]
  const INT_MAX_DIGITS: seq<int> := INT_MAX_FRONT + [7]

  lemma IntMaxFront()
    ensures Positional(INT_MAX_FRONT) == INT_MAX / 10
  {
    NextDigits([], 2, 1, 4, 0);
    assert [] + [2, 1, 4] == [2, 1, 4];
    NextDigits([2, 1, 4], 7, 4, 8, 214);
    NextDigits([2, 1, 4] + [7, 4, 8], 3, 6, 4, 214748);
  }

  /** Reading three more digits. */
  lemma NextDigits(s: seq<int>, x: int, y: int, z: int, value: int)
    requires Positional(s) == value
    ensures Positional(s + [x, y, z]) == value * 1000 + x * 100 + y * 10 + z
  {
    PositionalSnoc(s, x);
    PositionalSnoc(s + [x], y);
    PositionalSnoc(s + [x] + [y], z);
    assert s + [x] + [y] + [z] == s + [x, y, z];
  }

  /** What a caller can look at: without leading zeros the list fits if and only if compare
      does not put it above the digits of INT_MAX. */
  lemma FitsIffNotAboveIntMax(s: seq<int>)
    requires Digits(s) && s != [] && NoLeadingZero(s)
    ensures NeverOverflows(s) <==> Shortlex(s, INT_MAX_DIGITS) <= 0
  {
    FitsIffNumberFits(s);
    IntMaxFront();
    PositionalSnoc(INT_MAX_FRONT, 7);
    ShortlexIsNumeric(s, INT_MAX_DIGITS);
  }

  /** INT_MAX + 1 does not fit. */
  lemma FirstListThatOverflows()
    ensures !NeverOverflows(INT_MAX_FRONT + [8])
  {
    IntMaxFront();
    PositionalSnoc(INT_MAX_FRONT, 8);
    FitsIffNumberFits(INT_MAX_FRONT + [8]);
  }

  /** Up to nine digits, the running loop never leaves the 32-bit range. */
  lemma NineDigitsFit(s: seq<int>)
    requires Digits(s) && |s| <= 9
    ensures NeverOverflows(s)
  {
    NineDigitsBound(s);
    FitsIffNumberFits(s);
  }

  lemma ProductBound(x: int, y: int, p: int, q: int)
    requires 0 <= x < p && 0 <= y < q
    ensures 0 <= x * y < p * q
  {
    assert x * y <= x * q by { assert x * (q - y) >= 0; }
    assert x * q < p * q by { assert (p - x) * q > 0; }
  }

  /** Up to nine digits in total, the product stays in the 32-bit range. */
  lemma ProductFits(s: seq<int>, t: seq<int>)
    requires Digits(s) && Digits(t) && |s| + |t| <= 9
    ensures 0 <= Positional(s) * Positional(t) < 1_000_000_000
  {
    DigitsBound(s);
    DigitsBound(t);
    ProductBound(Positional(s), Positional(t), Pow10(|s|), Pow10(|t|));
    Pow10Sum(|s|, |t|);
    Pow10Monotone(|s| + |t|, 9);
    Pow10Nine();
  }

  // ------------------------------------------------------------ the order

  /** Of two sequences of equal length, which is greater at the first difference. */
  ghost function Lex(s: seq<int>, t: seq<int>): int
    requires |s| == |t|
  {
    if s == [] then 0
    else if s[0] == t[0] then Lex(s[1..], t[1..])
    else if s[0] > t[0] then 1
    else -1
  }

  /** The longer one is greater; otherwise the first difference decides. */
  ghost function Shortlex(s: seq<int>, t: seq<int>): int {
    if |s| > |t| then 1 else if |s| < |t| then -1 else Lex(s, t)
  }

  lemma {:induction false} LexOrder(s: seq<int>, t: seq<int>)
    requires |s| == |t|
    ensures Lex(s, t) == 0 <==> s == t
    ensures Lex(t, s) == -Lex(s, t)
    ensures -1 <= Lex(s, t) <= 1
  {
    if s != [] && s[0] == t[0] {
      LexOrder(s[1..], t[1..]);
      assert s == [s[0]] + s[1..] && t == [t[0]] + t[1..];
    }
  }

  lemma {:induction false} LexTransitive(s: seq<int>, t: seq<int>, u: seq<int>)
    requires |s| == |t| == |u| && Lex(s, t) <= 0 && Lex(t, u) <= 0
    ensures Lex(s, u) <= 0
  {
    if s != [] && s[0] == t[0] == u[0] { LexTransitive(s[1..], t[1..], u[1..]); }
  }

  /** compare is a total order: equal only to itself, antisymmetric, transitive, total. */
  lemma ShortlexIsTotalOrder(s: seq<int>, t: seq<int>, u: seq<int>)
    ensures Shortlex(s, t) == 0 <==> s == t
    ensures Shortlex(t, s) == -Shortlex(s, t)
    ensures -1 <= Shortlex(s, t) <= 1
    ensures Shortlex(s, t) <= 0 && Shortlex(t, u) <= 0 ==> Shortlex(s, u) <= 0
  {
    if |s| == |t| { LexOrder(s, t); }
    if |s| == |t| == |u| && Lex(s, t) <= 0 && Lex(t, u) <= 0 { LexTransitive(s, t, u); }
  }

  function Sign(x: int): int {
    if x > 0 then 1 else if x < 0 then -1 else 0
  }

  lemma FirstDigitDecides(a: int, b: int, p: int, x: int, y: int)
    requires a > b && 0 <= x < p && 0 <= y < p
    ensures a * p + x > b * p + y
  {
    assert (a - b - 1) * p >= 0;
  }

  lemma {:induction false} LexIsNumeric(s: seq<int>, t: seq<int>)
    requires |s| == |t| && Digits(s) && Digits(t)
    ensures Lex(s, t) == Sign(Positional(s) - Positional(t))
  {
    if s != [] {
      DigitsBound(s[1..]);
      DigitsBound(t[1..]);
      var p := Pow10(|s| - 1);
      if s[0] == t[0] {
        LexIsNumeric(s[1..], t[1..]);
      } else if s[0] > t[0] {
        FirstDigitDecides(s[0], t[0], p, Positional(s[1..]), Positional(t[1..]));
      } else {
        FirstDigitDecides(t[0], s[0], p, Positional(t[1..]), Positional(s[1..]));
      }
    }
  }

  lemma LongerIsGreater(s: seq<int>, t: seq<int>)
    requires |s| > |t| > 0 && Digits(s) && Digits(t) && NoLeadingZero(s)
    ensures Positional(s) > Positional(t)
  {
    LeadingDigitBound(s);
    DigitsBound(t);
    Pow10Monotone(|t|, |s| - 1);
  }

  /** On proper digit lists the comparison is that of the numbers. */
  lemma ShortlexIsNumeric(s: seq<int>, t: seq<int>)
    requires s != [] && t != [] && Digits(s) && Digits(t) && NoLeadingZero(s) && NoLeadingZero(t)
    ensures Shortlex(s, t) == Sign(Positional(s) - Positional(t))
  {
    if |s| > |t| {
      LongerIsGreater(s, t);
    } else if |s| < |t| {
      LongerIsGreater(t, s);
    } else {
      LexIsNumeric(s, t);
    }
  }

  /** How far two sequences agree. */
  ghost function CommonPrefix(s: seq<int>, t: seq<int>): (k: nat)
    ensures k <= |s| && k <= |t| && s[..k] == t[..k]
    ensures k < |s| && k < |t| ==> s[k] != t[k]
  {
    if s == [] || t == [] || s[0] != t[0] then 0 else
      var k := CommonPrefix(s[1..], t[1..]);
      assert s[..k + 1] == [s[0]] + s[1..][..k] && t[..k + 1] == [t[0]] + t[1..][..k];
      1 + k
  }

  // ------------------------------------------------------------ the programs

  /** check_len. */
  method CheckLen(head: Node?, ghost nodes: seq<Node>) returns (len: nat)
    requires IsList(head, nodes)
    ensures len == |nodes|
  {
    len := 1;
    if head == null { return 0; }
    if head.next == null { return 1; }
    var current := head;
    while current.next != null
      invariant 1 <= len <= |nodes| && current == nodes[len - 1]
      decreases |nodes| - len
    {
      current := current.next;
      len := len + 1;
    }
  }

  ghost predicate EqualUpTo(s: seq<int>, t: seq<int>, i: nat) {
    i <= |s| == |t| && forall j :: 0 <= j < i ==> s[j] == t[j]
  }

  /** The first difference decides, and is where the common prefix ends. */
  lemma {:induction false} FirstDifference(s: seq<int>, t: seq<int>, i: nat)
    requires EqualUpTo(s, t, i) && i < |s| && s[i] != t[i]
    ensures CommonPrefix(s, t) == i && Lex(s, t) == if s[i] > t[i] then 1 else -1
  {
    if i > 0 { FirstDifference(s[1..], t[1..], i - 1); }
  }

  lemma {:induction false} NoDifference(s: seq<int>, t: seq<int>)
    requires EqualUpTo(s, t, |s|)
    ensures CommonPrefix(s, t) == |s| && Lex(s, t) == 0
  {
    if s != [] { NoDifference(s[1..], t[1..]); }
  }

  /** The loop of compare, on lists of equal length: it stops at the first difference. */
  method FindDifference(head1: Node?, head2: Node?, ghost nodes1: seq<Node>, ghost nodes2: seq<Node>)
    returns (r: int, rest1: Node?, rest2: Node?, ghost i: nat)
    requires IsList(head1, nodes1) && IsList(head2, nodes2) && |nodes1| == |nodes2|
    ensures i <= |nodes1| && rest1 == Link(nodes1, i) && rest2 == Link(nodes2, i)
    ensures forall j :: 0 <= j < i ==> nodes1[j].value == nodes2[j].value
    ensures r == if i == |nodes1| then 0 else Sign(nodes1[i].value - nodes2[i].value)
    ensures r == 0 ==> i == |nodes1|
  {
    rest1, rest2, i := head1, head2, 0;
    while rest1 != null && rest2 != null
      invariant i <= |nodes1| && rest1 == Link(nodes1, i) && rest2 == Link(nodes2, i)
      invariant forall j :: 0 <= j < i ==> nodes1[j].value == nodes2[j].value
      decreases |nodes1| - i
    {
      if rest1.value == rest2.value {
        rest1, rest2 := rest1.next, rest2.next;
        i := i + 1;
      } else if rest1.value > rest2.value {
        return 1, rest1, rest2, i;
      } else {
        return -1, rest1, rest2, i;
      }
    }
    r := 0;
  }

  /** compare. It moves the caller's heads: with equal lengths, to the first difference. */
  method Compare(head1: Node?, head2: Node?, ghost nodes1: seq<Node>, ghost nodes2: seq<Node>)
    returns (r: int, rest1: Node?, rest2: Node?)
    requires IsList(head1, nodes1) && IsList(head2, nodes2)
    ensures r == Shortlex(Values(nodes1), Values(nodes2))
    ensures |nodes1| != |nodes2| ==> rest1 == head1 && rest2 == head2
    ensures |nodes1| == |nodes2| ==>
              var k := CommonPrefix(Values(nodes1), Values(nodes2));
              rest1 == Link(nodes1, k) && rest2 == Link(nodes2, k)
  {
    var len1 := CheckLen(head1, nodes1);
    var len2 := CheckLen(head2, nodes2);
    if len1 > len2 { return 1, head1, head2; }
    if len1 < len2 { return -1, head1, head2; }
    ghost var i, s, t := 0, Values(nodes1), Values(nodes2);
    r, rest1, rest2, i := FindDifference(head1, head2, nodes1, nodes2);
    if i == |s| { NoDifference(s, t); } else { FirstDifference(s, t, i); }
  }

  /** Adding the digit at `k` in its place leaves the value of the digits behind it to add. */
  lemma PlaceDigit(num: int, s: seq<int>, k: nat, digit: int, e: nat) returns (sum: int)
    requires k < |s| && digit == s[k] && e == |s| - 1 - k
    ensures sum == num + digit * Pow10(e)
    ensures sum + Positional(s[k + 1..]) == num + Positional(s[k..])
  {
    assert s[k..][1..] == s[k + 1..];
    sum := num + digit * Pow10(e);
  }

  /** The sum of the first `k` places lies between 0 and the whole. */
  lemma {:induction false} PartialSum(s: seq<int>, k: nat)
    requires Digits(s) && k <= |s|
    ensures 0 <= Positional(s) - Positional(s[k..]) <= Positional(s)
  {
    if k == 0 {
      assert s[0..] == s;
    } else {
      PartialSum(s[1..], k - 1);
      assert s[1..][k - 1..] == s[k..];
      assert s[0] * Pow10(|s| - 1) >= 0;
    }
    DigitsBound(s[k..]);
  }

  /** `pow(10.0, e)` is a finite double, and not infinity. */
  ghost predicate PowIsFinite(e: nat) {
    e <= 308
  }

  /** calc_number: the positional value of the first `len` nodes. `fits` says that every power
      was finite and no partial sum left the 32-bit range. */
  method CalcNumber(head: Node?, len: nat, ghost nodes: seq<Node>) returns (num: int, ghost fits: bool)
    requires IsList(head, nodes) && len <= |nodes|
    ensures num == Positional(Values(nodes)[..len])
    ensures Digits(Values(nodes)[..len]) ==> (fits <==> num <= INT_MAX && len <= 309)
  {
    var current := head;
    num, fits := 0, true;
    ghost var s := Values(nodes)[..len];
    assert s[0..] == s;
    var i := len - 1;
    ghost var k := 0;
    while i >= 0
      invariant -1 <= i && k == len - 1 - i && current == Link(nodes, k)
      invariant num + Positional(s[k..]) == Positional(s)
      invariant Digits(s) && Positional(s) <= INT_MAX && len <= 309 ==> fits
      invariant fits ==> num <= INT_MAX && (k > 0 ==> len <= 309)
    {
      ghost var sum := PlaceDigit(num, s, k, current.value, i);
      fits := fits && PowIsFinite(i);
      num := num + current.value * Pow10(i);
      current := current.next;
      i := i - 1;
      k := k + 1;
      fits := fits && InInt32(num);
      if Digits(s) { PartialSum(s, k); }
    }
  }

  ghost predicate FitsUpTo(s: seq<int>, i: nat)
    requires i <= |s|
  {
    forall k :: 0 <= k < i ==> StepFits(s, k)
  }

  /** The running loop has read `i` nodes of one list. */
  ghost predicate Read(num: int, p: Node?, fits: bool, nodes: seq<Node>, s: seq<int>, i: nat) {
    && i <= |s| == |nodes| && p == Link(nodes, i)
    && num == Horner(s[..i])
    && fits == FitsUpTo(s, i)
  }

  /** One step of the running loop on one list; nothing happens at its end. */
  method HornerStep(num: int, p: Node?, ghost fits: bool, ghost nodes: seq<Node>, ghost s: seq<int>, ghost i: nat)
    returns (num': int, p': Node?, ghost fits': bool, ghost i': nat)
    requires IsList(Link(nodes, 0), nodes) && s == Values(nodes)
    requires Read(num, p, fits, nodes, s, i)
    ensures i' == if i < |s| then i + 1 else i
    ensures Read(num', p', fits', nodes, s, i')
  {
    num', p', fits', i' := num, p, fits, i;
    if p != null {
      HornerPrefix(s, i);
      num' := num * 10 + p.value;
      p' := p.next;
      i' := i + 1;
      fits' := fits && InInt32(num * 10) && InInt32(num');
      assert fits' == (fits && StepFits(s, i));
    }
  }

  lemma ReadAll(num: int, p: Node?, fits: bool, nodes: seq<Node>, s: seq<int>, i: nat)
    requires Read(num, p, fits, nodes, s, i) && p == null
    ensures i == |s| && num == Positional(s) && fits == NeverOverflows(s)
  {
    assert s[..|s|] == s;
    HornerIsPositional(s);
  }

  /** The loop shared by subtract and multiply: both lists are read in step, and both heads
      are left at NULL. `fits` says that no intermediate value left the 32-bit range. */
  method ReadBoth(head1: Node?, head2: Node?, ghost nodes1: seq<Node>, ghost nodes2: seq<Node>)
    returns (num1: int, num2: int, rest1: Node?, rest2: Node?, ghost fits: bool)
    requires IsList(head1, nodes1) && IsList(head2, nodes2)
    ensures num1 == Positional(Values(nodes1)) && num2 == Positional(Values(nodes2))
    ensures rest1 == null && rest2 == null
    ensures fits <==> NeverOverflows(Values(nodes1)) && NeverOverflows(Values(nodes2))
  {
    num1, num2, rest1, rest2 := 0, 0, head1, head2;
    ghost var s, t, i, j, fits1, fits2 := Values(nodes1), Values(nodes2), 0, 0, true, true;
    while rest1 != null || rest2 != null
      invariant Read(num1, rest1, fits1, nodes1, s, i)
      invariant Read(num2, rest2, fits2, nodes2, t, j)
      decreases |s| - i + |t| - j
    {
      num1, rest1, fits1, i := HornerStep(num1, rest1, fits1, nodes1, s, i);
      num2, rest2, fits2, j := HornerStep(num2, rest2, fits2, nodes2, t, j);
    }
    ReadAll(num1, rest1, fits1, nodes1, s, i);
    ReadAll(num2, rest2, fits2, nodes2, t, j);
    fits := fits1 && fits2;
  }

  lemma NineDigitsBound(s: seq<int>)
    requires Digits(s) && |s| <= 9
    ensures 0 <= Positional(s) < 1_000_000_000
  {
    DigitsBound(s);
    Pow10Monotone(|s|, 9);
    Pow10Nine();
  }

  /** subtract: prints the distance of the two numbers. On digit lists nothing overflows if
      and only if both numbers fit. */
  method Subtract(head1: Node?, head2: Node?, ghost nodes1: seq<Node>, ghost nodes2: seq<Node>)
    returns (num1: int, num2: int, printed: int, rest1: Node?, rest2: Node?, ghost fits: bool)
    requires IsList(head1, nodes1) && IsList(head2, nodes2)
    ensures num1 == Positional(Values(nodes1)) && num2 == Positional(Values(nodes2))
    ensures printed >= 0 && (printed == num1 - num2 || printed == num2 - num1)
    ensures rest1 == null && rest2 == null
    ensures Digits(Values(nodes1)) && Digits(Values(nodes2))
            ==> (fits <==> num1 <= INT_MAX && num2 <= INT_MAX)
    ensures Digits(Values(nodes1)) && Digits(Values(nodes2)) && |nodes1| <= 9 && |nodes2| <= 9 ==> fits
  {
    num1, num2, rest1, rest2, fits := ReadBoth(head1, head2, nodes1, nodes2);
    printed := if num1 > num2 then num1 - num2 else num2 - num1;
    fits := fits && InInt32(printed);
    ghost var s, t := Values(nodes1), Values(nodes2);
    if Digits(s) && Digits(t) {
      FitsIffNumberFits(s);
      FitsIffNumberFits(t);
      DigitsBound(s);
      DigitsBound(t);
      if |s| <= 9 { NineDigitsBound(s); }
      if |t| <= 9 { NineDigitsBound(t); }
    }
  }

  /** multiply: prints the product of the two numbers. On digit lists nothing overflows if and
      only if both numbers and their product fit. */
  method Multiply(head1: Node?, head2: Node?, ghost nodes1: seq<Node>, ghost nodes2: seq<Node>)
    returns (num1: int, num2: int, printed: int, rest1: Node?, rest2: Node?, ghost fits: bool)
    requires IsList(head1, nodes1) && IsList(head2, nodes2)
    ensures num1 == Positional(Values(nodes1)) && num2 == Positional(Values(nodes2))
    ensures printed == num1 * num2
    ensures rest1 == null && rest2 == null
    ensures Digits(Values(nodes1)) && Digits(Values(nodes2))
            ==> (fits <==> num1 <= INT_MAX && num2 <= INT_MAX && num1 * num2 <= INT_MAX)
    ensures Digits(Values(nodes1)) && Digits(Values(nodes2)) && |nodes1| + |nodes2| <= 9 ==> fits
  {
    num1, num2, rest1, rest2, fits := ReadBoth(head1, head2, nodes1, nodes2);
    printed := num1 * num2;
    fits := fits && InInt32(printed);
    ghost var s, t := Values(nodes1), Values(nodes2);
    if Digits(s) && Digits(t) {
      FitsIffNumberFits(s);
      FitsIffNumberFits(t);
      ProductIsNatural(s, t);
      if |s| + |t| <= 9 {
        NineDigitsBound(s);
        NineDigitsBound(t);
        ProductFits(s, t);
      }
    }
  }

  lemma ProductIsNatural(s: seq<int>, t: seq<int>)
    requires Digits(s) && Digits(t)
    ensures 0 <= Positional(s) * Positional(t)
  {
    DigitsBound(s);
    DigitsBound(t);
  }
}
