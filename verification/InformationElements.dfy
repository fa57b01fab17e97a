/**
Finding and printing the SSID among the information elements of a scan result. An element
is an identifier octet, a length octet and that many octets of data (section 9.4.2 of
IEEE Std 802.11-2016); the SSID element has identifier 0 and up to 32 octets of data.
*/
module InformationElements {
  import opened Octets

  // ------------------------------------------------------------ escaping

  const SPACE: byte := 0x20
  const BACKSLASH: byte := 0x5c
  const LOWER_X: byte := 0x78

  /** isprint in the C locale. */
  predicate IsPrint(b: byte) {
    0x20 <= b <= 0x7e
  }

  function HexDigit(d: int): (c: byte)
    requires 0 <= d < 16
    ensures c != SPACE && c != BACKSLASH
  {
    if d < 10 then 0x30 + d else 0x61 + d - 10
  }

  function UnhexDigit(c: byte): int {
    if c < 0x3a then c - 0x30 else c - 0x61 + 10
  }

  /** One octet of the SSID, at an end of it or inside, as it is printed. */
  function EscapeByte(b: byte, atEnd: bool): (t: seq<byte>)
    ensures |t| == 1 || |t| == 4
  {
    if IsPrint(b) && b != SPACE && b != BACKSLASH then [b]
    else if b == SPACE && !atEnd then [b]
    else [BACKSLASH, LOWER_X, HexDigit(b / 16), HexDigit(b % 16)]
  }

  /** The digits 0 to 9 and a to f. */
  const HEX_DIGITS: seq<byte> := [0x30, 0x31, 0x32, 0x33, 0x34, 0x35, 0x36, 0x37, 0x38, 0x39,
                                  0x61, 0x62, 0x63, 0x64, 0x65, 0x66]

  /** Which octets are printed as they are: the visible characters but the backslash, and the
      blank unless it stands at an end. */
  ghost predicate IsPlain(b: byte, atEnd: bool) {
    (0x21 <= b <= 0x7e && b != 0x5c) || (b == 0x20 && !atEnd)
  }

  /** They are; any other octet becomes a backslash, an x and two hexadecimal digits. */
  lemma EscapeByteExactly(b: byte, atEnd: bool)
    ensures EscapeByte(b, atEnd) ==
            if IsPlain(b, atEnd) then [b] else [0x5c, 0x78, HEX_DIGITS[b / 16], HEX_DIGITS[b % 16]]
  {
    HexDigitExactly(b / 16);
    HexDigitExactly(b % 16);
  }

  lemma HexDigitExactly(d: int)
    requires 0 <= d < 16
    ensures HexDigit(d) == HEX_DIGITS[d]
  {
  }

  /** The first `n` octets of the SSID as they are printed. */
  ghost function EscapePrefix(data: seq<byte>, n: nat): seq<byte>
    requires n <= |data|
  {
    if n == 0 then []
    else EscapePrefix(data, n - 1) + EscapeByte(data[n - 1], n - 1 == 0 || n == |data|)
  }

  ghost function Escape(data: seq<byte>): seq<byte> {
    EscapePrefix(data, |data|)
  }

  /** The printed text read back: a backslash introduces `\\xhh`, all else is literal. */
  ghost function Unescape(t: seq<byte>): seq<byte> {
    if t == [] then []
    else if |t| >= 4 && t[0] == 0x5c && t[1] == 0x78 then
      var v := UnhexDigit(t[2]) * 16 + UnhexDigit(t[3]);
      [if 0 <= v < 256 then v else 0] + Unescape(t[4..])
    else [t[0]] + Unescape(t[1..])
  }

  lemma HexRoundTrip(d: int)
    requires 0 <= d < 16
    ensures UnhexDigit(HexDigit(d)) == d
  {
  }

  /** A printed octet followed by anything reads back as that octet followed by the rest. */
  lemma UnescapeStep(b: byte, atEnd: bool, rest: seq<byte>)
    ensures Unescape(EscapeByte(b, atEnd) + rest) == [b] + Unescape(rest)
  {
    var t := EscapeByte(b, atEnd) + rest;
    if |EscapeByte(b, atEnd)| == 1 {
      assert t[1..] == rest;
    } else {
      HexRoundTrip(b / 16);
      HexRoundTrip(b % 16);
      assert t[4..] == rest;
    }
  }

  lemma OneMore(data: seq<byte>, n: nat, rest: seq<byte>)
    requires 0 < n <= |data|
    ensures data[..n - 1] + ([data[n - 1]] + rest) == data[..n] + rest
  {
  }

  lemma {:induction false} UnescapePrefix(data: seq<byte>, n: nat, rest: seq<byte>)
    requires n <= |data|
    ensures Unescape(EscapePrefix(data, n) + rest) == data[..n] + Unescape(rest)
  {
    if n == 0 {
      assert EscapePrefix(data, 0) + rest == rest;
    } else {
      var atEnd := n - 1 == 0 || n == |data|;
      var p, b := EscapePrefix(data, n - 1), data[n - 1];
      var e := EscapeByte(b, atEnd);
      assert EscapePrefix(data, n) == p + e;
      assert (p + e) + rest == p + (e + rest);
      UnescapePrefix(data, n - 1, e + rest);
      UnescapeStep(b, atEnd, rest);
      OneMore(data, n, Unescape(rest));
    }
  }

  /** The decoder recovers the SSID exactly. */
  lemma EscapeRoundTrip(data: seq<byte>)
    ensures Unescape(Escape(data)) == data
  {
    UnescapePrefix(data, |data|, []);
    assert Escape(data) + [] == Escape(data);
    assert data[..|data|] + [] == data;
  }

  /** So no two SSIDs are printed alike. */
  lemma EscapeIsInjective(data: seq<byte>, data': seq<byte>)
    requires Escape(data) == Escape(data')
    ensures data == data'
  {
    EscapeRoundTrip(data);
    EscapeRoundTrip(data');
  }

  lemma {:induction false} EscapePrefixPrintable(data: seq<byte>, n: nat)
    requires n <= |data|
    ensures forall i :: 0 <= i < |EscapePrefix(data, n)| ==> IsPrint(EscapePrefix(data, n)[i])
    ensures n > 0 ==> EscapePrefix(data, n) != [] && EscapePrefix(data, n)[0] != SPACE
  {
    if n > 0 { EscapePrefixPrintable(data, n - 1); }
  }

  /** What is printed is printable throughout, with no blank at either end. */
  lemma EscapedTextIsPrintable(data: seq<byte>)
    ensures forall i :: 0 <= i < |Escape(data)| ==> IsPrint(Escape(data)[i])
    ensures data != [] ==> Escape(data) != [] && Escape(data)[0] != SPACE && Escape(data)[|Escape(data)| - 1] != SPACE
  {
    EscapePrefixPrintable(data, |data|);
    if data != [] {
      var n := |data|;
      var e := EscapeByte(data[n - 1], true);
      assert Escape(data) == EscapePrefix(data, n - 1) + e && e[|e| - 1] != SPACE;
    }
  }

  /** All octets are such as are printed as they are. */
  ghost predicate AllPlain(data: seq<byte>, n: nat)
    requires n <= |data|
  {
    forall i :: 0 <= i < n ==> IsPlain(data[i], i == 0 || i == |data| - 1)
  }

  lemma {:induction false} PlainPrefix(data: seq<byte>, n: nat)
    requires n <= |data|
    ensures |EscapePrefix(data, n)| >= n
    ensures AllPlain(data, n) ==> EscapePrefix(data, n) == data[..n]
    ensures !AllPlain(data, n) ==> |EscapePrefix(data, n)| > n
  {
    if n > 0 {
      PlainPrefix(data, n - 1);
      EscapeByteExactly(data[n - 1], n - 1 == 0 || n == |data|);
      assert data[..n] == data[..n - 1] + [data[n - 1]];
    }
  }

  /** An SSID is printed as it is if and only if it consists of visible characters other than
      the backslash, and of blanks inside. */
  lemma PrintedAsItIsIffPlain(data: seq<byte>)
    ensures Escape(data) == data <==> AllPlain(data, |data|)
  {
    PlainPrefix(data, |data|);
    assert data[..|data|] == data;
  }

  /** The printing loop. */
  method PrintEscaped(data: seq<byte>) returns (out: seq<byte>)
    ensures out == Escape(data)
    ensures out == data <==> AllPlain(data, |data|)
  {
    PrintedAsItIsIffPlain(data);
    out := [];
    for i := 0 to |data|
      invariant out == EscapePrefix(data, i)
    {
      var b := data[i];
      if IsPrint(b) && b != SPACE && b != BACKSLASH {
        out := out + [b];
      } else if b == SPACE && i != 0 && i != |data| - 1 {
        out := out + [SPACE];
      } else {
        out := out + [BACKSLASH, LOWER_X, HexDigit(b / 16), HexDigit(b % 16)];
      }
    }
  }

  // ------------------------------------------------------------ the walk

  /** Overrun: the loop would read SSID data from behind the end of the buffer. */
  datatype Outcome = Printed(text: seq<byte>) | NoSsid | Overrun

  /** The outcome of the walk over what is left of the buffer. */
  ghost function Walk(buf: seq<byte>): Outcome {
    if |buf| < 2 then NoSsid
    else
      var len: int := buf[1];
      if |buf| < len then NoSsid
      else if buf[0] == 0 && len <= 32 then
        if len + 2 <= |buf| then Printed(Escape(buf[2..len + 2])) else Overrun
      else if |buf| < len + 2 then NoSsid
      else Walk(buf[len + 2..])
  }

  /** The outcome of the walk from position `pos` on; behind the end there is nothing. */
  ghost function WalkFrom(ie: seq<byte>, pos: nat): Outcome {
    if pos <= |ie| then Walk(ie[pos..]) else NoSsid
  }

  lemma WalkHere(ie: seq<byte>, pos: nat, len: int)
    requires pos + 2 <= |ie| && len == ie[pos + 1] && len <= |ie| - pos
    ensures WalkFrom(ie, pos) ==
            if ie[pos] == 0 && len <= 32
            then if pos + 2 + len <= |ie| then Printed(Escape(ie[pos + 2..pos + 2 + len])) else Overrun
            else WalkFrom(ie, pos + len + 2)
  {
    var buf := ie[pos..];
    assert buf[0] == ie[pos] && buf[1] == len;
    if pos + 2 + len <= |ie| {
      SliceOfSuffix(ie, pos, 2, len + 2);
      SuffixOfSuffix(ie, pos, len + 2);
    }
  }

  /** print_ssid. The explicit test before the data is copied out stands for the read that C
      would make unchecked. */
  method PrintSsid(ie: seq<byte>) returns (r: Outcome)
    ensures r == Walk(ie)
  {
    var pos, ielen := 0, |ie|;
    assert ie[0..] == ie;
    while ielen >= 2 && ielen >= ie[pos + 1]
      invariant 0 <= pos && pos + ielen == |ie|
      invariant Walk(ie) == WalkFrom(ie, pos)
      decreases ielen
    {
      var len: int := ie[pos + 1];
      WalkHere(ie, pos, len);
      if ie[pos] == 0 && len <= 32 {
        if pos + 2 + len > |ie| { return Overrun; }
        var text := PrintEscaped(ie[pos + 2..pos + 2 + len]);
        return Printed(text);
      }
      ielen := ielen - (len + 2);
      pos := pos + len + 2;
    }
    return NoSsid;
  }

  // ------------------------------------------------------------ well-formed buffers

  datatype Element = Element(id: byte, data: seq<byte>)

  ghost predicate Valid(e: Element) {
    |e.data| < 256
  }

  /** What print_ssid takes for an SSID element. */
  ghost predicate IsSsid(e: Element) {
    e.id == 0 && |e.data| <= 32
  }

  ghost function EncodeOne(e: Element): (b: seq<byte>)
    requires Valid(e)
    ensures |b| == |e.data| + 2
  {
    [e.id, |e.data|] + e.data
  }

  ghost predicate AllValid(es: seq<Element>) {
    forall i :: 0 <= i < |es| ==> Valid(es[i])
  }

  ghost function Encode(es: seq<Element>): seq<byte>
    requires AllValid(es)
  {
    if es == [] then [] else EncodeOne(es[0]) + Encode(es[1..])
  }

  /** The first SSID element, printed. */
  ghost function FirstSsid(es: seq<Element>): Outcome {
    if es == [] then NoSsid
    else if IsSsid(es[0]) then Printed(Escape(es[0].data))
    else FirstSsid(es[1..])
  }

  lemma WalkOne(e: Element, rest: seq<byte>)
    requires Valid(e)
    ensures Walk(EncodeOne(e) + rest) == if IsSsid(e) then Printed(Escape(e.data)) else Walk(rest)
  {
    var b := EncodeOne(e) + rest;
    var n := |e.data|;
    assert b[0] == e.id && b[1] == n;
    assert b[2..n + 2] == e.data && b[n + 2..] == rest;
  }

  /** Elements that are no SSID are skipped. */
  lemma {:induction false} WalkSkips(es: seq<Element>, rest: seq<byte>)
    requires AllValid(es) && forall i :: 0 <= i < |es| ==> !IsSsid(es[i])
    ensures Walk(Encode(es) + rest) == Walk(rest)
  {
    if es == [] {
      assert Encode(es) + rest == rest;
    } else {
      assert Encode(es) + rest == EncodeOne(es[0]) + (Encode(es[1..]) + rest);
      WalkOne(es[0], Encode(es[1..]) + rest);
      WalkSkips(es[1..], rest);
    }
  }

  /** On every well-formed buffer the walk prints the first SSID element, and reads nothing
      from outside. */
  lemma {:induction false} WalkFindsFirstSsid(es: seq<Element>)
    requires AllValid(es)
    ensures Walk(Encode(es)) == FirstSsid(es)
    ensures Walk(Encode(es)) != Overrun
  {
    if es != [] {
      WalkOne(es[0], Encode(es[1..]));
      WalkFindsFirstSsid(es[1..]);
    }
  }

  /** A first element with identifier 0 is printed up to a length of 32, and skipped beyond. */
  lemma FirstElement(data: seq<byte>, rest: seq<byte>)
    requires |data| < 256
    ensures Walk([0, |data|] + data + rest) == if |data| <= 32 then Printed(Escape(data)) else Walk(rest)
    ensures forall id: byte :: id != 0 ==> Walk([id, |data|] + data + rest) == Walk(rest)
  {
    WalkOne(Element(0, data), rest);
    forall id: byte | id != 0 ensures Walk([id, |data|] + data + rest) == Walk(rest) {
      WalkOne(Element(id, data), rest);
    }
  }

  // ------------------------------------------------------------ any buffer

  /** An SSID header with one or two octets of data missing. */
  ghost predicate TruncatedSsid(t: seq<byte>) {
    |t| >= 2 && t[0] == 0 && t[1] <= 32 && t[1] <= |t| && |t| - 2 < t[1]
  }

  ghost predicate EndsTruncated(buf: seq<byte>, es: seq<Element>, t: seq<byte>) {
    && AllValid(es) && (forall i :: 0 <= i < |es| ==> !IsSsid(es[i]))
    && buf == Encode(es) + t && TruncatedSsid(t)
  }

  lemma PrependElement(buf: seq<byte>, n: nat, es: seq<Element>, t: seq<byte>)
    requires 2 <= n <= |buf| && buf[1] == n - 2 && !(buf[0] == 0 && buf[1] <= 32)
    requires EndsTruncated(buf[n..], es, t)
    ensures EndsTruncated(buf, [Element(buf[0], buf[2..n])] + es, t)
  {
    var e := Element(buf[0], buf[2..n]);
    var es' := [e] + es;
    assert es'[1..] == es && EncodeOne(e) == buf[..n];
    assert Encode(es') + t == buf[..n] + (Encode(es) + t);
    assert buf == buf[..n] + buf[n..];
  }

  lemma {:induction false} OverrunShape(buf: seq<byte>) returns (es: seq<Element>, t: seq<byte>)
    requires Walk(buf) == Overrun
    ensures EndsTruncated(buf, es, t)
  {
    if buf[0] == 0 && buf[1] <= 32 {
      es, t := [], buf;
      assert Encode(es) + t == buf;
    } else {
      var n: int := buf[1] as int + 2;
      es, t := OverrunShape(buf[n..]);
      PrependElement(buf, n, es, t);
      es := [Element(buf[0], buf[2..n])] + es;
    }
  }

  /** The walk reads outside the buffer exactly when, behind complete elements of which none
      is an SSID, the buffer ends in an SSID element short of one or two octets. */
  lemma OverrunExactly(buf: seq<byte>)
    ensures Walk(buf) == Overrun <==>
            exists es: seq<Element>, t: seq<byte> :: EndsTruncated(buf, es, t)
  {
    if Walk(buf) == Overrun {
      var es, t := OverrunShape(buf);
    }
    forall es: seq<Element>, t: seq<byte> | EndsTruncated(buf, es, t) ensures Walk(buf) == Overrun {
      WalkSkips(es, t);
    }
  }

  /** The smallest such buffer: an SSID of length 1, and nothing behind its header. */
  lemma OverrunExample()
    ensures Walk([0, 1]) == Overrun
  {
  }
}
