/**
 Domain names as the resolver handles them.

 A label is its presentation text as octets, escapes included. A name lists its labels
 from the root downwards, so the root is the empty sequence and "ancestor or equal"
 is "prefix". Comparison ignores the case of ASCII letters, exactly as the DNS library does.
 */
module Names {

  type Octet = x: int | 0 <= x < 256
  type Label = seq<Octet>
  type Name = seq<Label>

  const ROOT: Name := []

  /** The label "*". */
  const ASTERISK: Label := [42]

  function Lower(o: Octet): Octet {
    if 65 <= o <= 90 then o + 32 else o
  }

  function LowerLabel(l: Label): (r: Label)
    ensures |r| == |l|
  {
    seq(|l|, i requires 0 <= i < |l| => Lower(l[i]))
  }

  function Canonical(n: Name): (r: Name)
    ensures |r| == |n|
  {
    seq(|n|, i requires 0 <= i < |n| => LowerLabel(n[i]))
  }

  predicate NamesEqual(a: Name, b: Name) {
    Canonical(a) == Canonical(b)
  }

  /** `child` is `parent` or lies below it. */
  predicate IsSubDomain(parent: Name, child: Name) {
    Canonical(parent) <= Canonical(child)
  }

  predicate IsProperSubDomain(parent: Name, child: Name) {
    IsSubDomain(parent, child) && !NamesEqual(parent, child)
  }

  lemma CanonicalIdempotent(n: Name)
    ensures Canonical(Canonical(n)) == Canonical(n)
  {
    forall i | 0 <= i < |n|
      ensures Canonical(Canonical(n))[i] == Canonical(n)[i]
    {
      assert LowerLabel(LowerLabel(n[i])) == LowerLabel(n[i]);
    }
  }

  lemma CanonicalTake(n: Name, k: nat)
    requires k <= |n|
    ensures Canonical(n[..k]) == Canonical(n)[..k]
  {
  }

  /** The ancestors of one name are ordered by their number of labels. */
  lemma AncestorsNest(a: Name, b: Name, n: Name)
    requires IsSubDomain(a, n) && IsSubDomain(b, n)
    ensures |a| <= |b| ==> IsSubDomain(a, b)
    ensures |a| == |b| <==> NamesEqual(a, b)
    ensures |a| < |b| ==> IsProperSubDomain(a, b)
  {
    var ca, cb, cn := Canonical(a), Canonical(b), Canonical(n);
    assert ca == cn[..|a|] && cb == cn[..|b|];
    if |a| <= |b| {
      assert ca == cb[..|a|];
    }
  }
}
