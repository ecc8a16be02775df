/** C strings in a buffer of characters. */
module CStrings {
  const NUL: char := '\0'

  /** The string w is at position p, ended by a NUL. */
  predicate IsStringAt(b: seq<char>, p: nat, w: string) {
    p + |w| < |b| && b[p..p + |w|] == w && NUL !in w && b[p + |w|] == NUL
  }

  /** The length of the C string at the front: up to its first NUL, or all there is. */
  function StringLength(b: seq<char>): (n: nat)
    ensures n <= |b| && (forall i :: 0 <= i < n ==> b[i] != NUL) && (n < |b| ==> b[n] == NUL)
  {
    if b == [] || b[0] == NUL then 0 else 1 + StringLength(b[1..])
  }

  /** A write behind the string does not change it. */
  lemma StringIsKept(a: seq<char>, b: seq<char>, from: nat, p: nat, w: string)
    requires |a| == |b| && from <= |a| && a[..from] == b[..from]
    requires p + |w| < from && IsStringAt(a, p, w)
    ensures IsStringAt(b, p, w)
  {
    assert a[p..p + |w|] == a[..from][p..p + |w|] == b[..from][p..p + |w|] == b[p..p + |w|];
    assert a[p + |w|] == a[..from][p + |w|] == b[..from][p + |w|];
  }

  lemma NoNulInside(b: seq<char>, start: nat, w: string, p: nat)
    requires IsStringAt(b, start, w) && start <= p < start + |w|
    ensures b[p] != NUL
  {
    assert b[p] == b[start..start + |w|][p - start];
  }

  lemma StringInside(b: seq<char>, start: nat, w: string, k: nat)
    requires IsStringAt(b, start, w) && k <= |w|
    ensures IsStringAt(b, start + k, w[k..])
  {
    assert b[start + k..start + |w|] == b[start..start + |w|][k..];
  }
}
