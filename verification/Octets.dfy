/** The octets that packets, elements and attributes are made of. */
module Octets {
  type byte = x: int | 0 <= x < 256

  lemma SliceOfSuffix(s: seq<byte>, i: nat, p: nat, q: nat)
    requires p <= q && i + q <= |s|
    ensures s[i..][p..q] == s[i + p..i + q]
  {
  }

  lemma SuffixOfSuffix(s: seq<byte>, i: nat, p: nat)
    requires i + p <= |s|
    ensures s[i..][p..] == s[i + p..]
  {
  }
}
