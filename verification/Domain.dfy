/**
 The label cursor of the resolution walk (domain.go): a canonical name, and a position that moves
 from the root down to the full name, which it offers twice.
 */
module Domain {
  import opened Collections
  import opened Names

  /** The ancestor of `n` with `k` labels. */
  function Ancestor(n: Name, k: nat): Name {
    if k < |n| then n[..k] else n
  }

  /** Label counts of a name's suffixes as they appear in its text, the longest first; the root is last. */
  function SuffixLengths(n: Name): (r: seq<nat>)
    ensures |r| == |n| + 1 && forall i :: 0 <= i < |r| ==> r[i] == |n| - i
  {
    seq(|n| + 1, i requires 0 <= i <= |n| => |n| - i)
  }

  lemma AncestorIsSubDomain(n: Name, k: nat)
    requires k <= |n|
    ensures IsSubDomain(n[..k], n)
  {
    CanonicalTake(n, k);
  }

  /** An ancestor of a canonical name is one of its prefixes. */
  lemma CanonicalAncestor(a: Name, n: Name)
    requires Canonical(n) == n && IsSubDomain(a, n)
    ensures |a| <= |n| && Canonical(a) == n[..|a|]
  {
  }

  /** The names on the way from the cursor at `at` down to the parent of a deeper ancestor of `name`. */
  function GapNames(name: Name, at: nat, target: Name): (gap: seq<Name>)
    ensures |gap| == if IsSubDomain(target, name) && at < |target| then |target| - at else 0
  {
    if IsSubDomain(target, name) && at < |target|
    then seq(|target| - at, j requires 0 <= j < |target| - at => Ancestor(name, at + j))
    else []
  }

  class Domain {
    const name: Name
    const labelIndexes: seq<nat>
    var currentIdx: nat

    predicate Valid() {
      && Canonical(name) == name && |labelIndexes| == |name| + 1
      && forall i :: 0 <= i < |labelIndexes| ==> labelIndexes[i] == i
    }

    constructor (d: Name)
      ensures Valid() && name == Canonical(d) && currentIdx == 0
    {
      CanonicalIdempotent(d);
      var n := Canonical(d);
      name := n;
      labelIndexes := Reversed(SuffixLengths(n));
      currentIdx := 0;
    }

    /** The suffix at the cursor; the full name once the cursor is past the end. */
    function Current(): (r: Name)
      reads this
      requires Valid()
      ensures r == Ancestor(name, currentIdx) && IsSubDomain(r, name) && Canonical(r) == r
    {
      AncestorIsSubDomain(name, if currentIdx < |name| then currentIdx else |name|);
      CanonicalTake(name, if currentIdx < |name| then currentIdx else |name|);
      if currentIdx >= |labelIndexes| then name else name[..labelIndexes[currentIdx]]
    }

    predicate More()
      reads this
    {
      currentIdx <= |labelIndexes|
    }

    predicate Last()
      reads this
    {
      currentIdx >= |labelIndexes| - 1
    }

    method Next()
      modifies this
      ensures currentIdx == old(currentIdx) + 1
    {
      currentIdx := currentIdx + 1;
    }

    /**
     Winding succeeds exactly for an ancestor the cursor has not passed yet, and stops on it. The
     full name can still be reached one step late, since the cursor offers it twice.
     */
    method WindTo(target: Name) returns (ok: bool)
      requires Valid()
      modifies this
      ensures ok <==> IsSubDomain(target, name) && (old(currentIdx) <= |target| || (|target| == |name| && old(currentIdx) == |name| + 1))
      ensures ok ==> Current() == Canonical(target) && (old(currentIdx) <= |target| ==> currentIdx == |target|)
      ensures currentIdx >= old(currentIdx)
    {
      if !IsSubDomain(target, name) {
        return false;
      }
      CanonicalIdempotent(target);
      CanonicalAncestor(target, name);
      var t := Canonical(target);
      while More()
        invariant old(currentIdx) <= currentIdx
        invariant old(currentIdx) <= |target| ==> currentIdx <= |target|
        invariant |target| == |name| && old(currentIdx) <= |name| + 1 ==> currentIdx <= |name| + 1
        decreases |labelIndexes| + 1 - currentIdx
      {
        if Current() == t {
          assert |Current()| == |target|;
          return true;
        }
        Next();
      }
      return false;
    }

    /** The names from the cursor down to the parent of a deeper ancestor of the name. */
    method Gap(target: Name) returns (results: seq<Name>)
      requires Valid()
      ensures results == GapNames(name, currentIdx, target)
      ensures results != [] <==> IsSubDomain(target, name) && currentIdx < |target|
      ensures results != [] ==> |results| == |target| - currentIdx && |target| <= |name|
      ensures results != [] ==> results[0] == Current() && results[|results| - 1] == Canonical(target)[..|target| - 1]
      ensures forall j :: 0 <= j < |results| ==> results[j] == Ancestor(name, currentIdx + j) && |results[j]| == currentIdx + j
    {
      results := [];
      if !IsSubDomain(target, name) {
        return;
      }
      CanonicalAncestor(target, name);
      var missing := |target| - |Current()|;
      if missing <= 0 {
        return;
      }
      for i := currentIdx to missing + currentIdx
        invariant |results| == i - currentIdx
        invariant forall j :: 0 <= j < |results| ==> results[j] == name[..currentIdx + j]
      {
        results := results + [name[..labelIndexes[i]]];
      }
      ghost var gap := GapNames(name, currentIdx, target);
      assert |gap| == |results|;
      forall j | 0 <= j < |gap|
        ensures gap[j] == results[j]
      {
        assert gap[j] == Ancestor(name, currentIdx + j);
      }
    }
  }
}
