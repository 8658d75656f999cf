/** Optional values and order-preserving filters. */
module Collections {

  datatype Option<+T> = None | Some(value: T)

  /** The elements that satisfy `p`, in order. */
  function Filter<T(!new)>(s: seq<T>, p: T -> bool): (r: seq<T>)
    ensures forall x :: x in r <==> x in s && p(x)
    ensures |r| <= |s|
  {
    if s == [] then []
    else if p(s[0]) then [s[0]] + Filter(s[1..], p)
    else Filter(s[1..], p)
  }

  lemma FilterCons<T(!new)>(x: T, s: seq<T>, p: T -> bool)
    ensures Filter([x] + s, p) == (if p(x) then [x] else []) + Filter(s, p)
  {
    assert ([x] + s)[1..] == s;
  }

  lemma {:induction false} FilterConcat<T(!new)>(a: seq<T>, b: seq<T>, p: T -> bool)
    ensures Filter(a + b, p) == Filter(a, p) + Filter(b, p)
  {
    if a == [] {
      assert a + b == b;
    } else {
      var x, rest := a[0], a[1..];
      assert a + b == [x] + (rest + b) && a == [x] + rest;
      FilterConcat(rest, b, p);
      FilterCons(x, rest + b, p);
      FilterCons(x, rest, p);
    }
  }

  /** One more loop step of a filtering loop. */
  lemma FilterStep<T(!new)>(s: seq<T>, i: nat, p: T -> bool)
    requires i < |s|
    ensures Filter(s[..i + 1], p) == Filter(s[..i], p) + (if p(s[i]) then [s[i]] else [])
  {
    assert s[..i + 1] == s[..i] + [s[i]];
    FilterConcat(s[..i], [s[i]], p);
  }

  lemma {:induction false} FilterNone<T(!new)>(s: seq<T>, p: T -> bool)
    requires forall x :: x in s ==> !p(x)
    ensures Filter(s, p) == []
  {
    if s != [] {
      assert s[0] in s;
      FilterNone(s[1..], p);
    }
  }

  lemma {:induction false} FilterAlike<T(!new)>(s: seq<T>, p: T -> bool, q: T -> bool)
    requires forall x :: x in s ==> (p(x) <==> q(x))
    ensures Filter(s, p) == Filter(s, q)
  {
    if s != [] {
      assert s[0] in s;
      FilterAlike(s[1..], p, q);
    }
  }

  /** Elements that all fail in front of elements that all pass. */
  lemma FilterSplits<T(!new)>(a: seq<T>, b: seq<T>, p: T -> bool)
    requires (forall x :: x in a ==> !p(x)) && forall x :: x in b ==> p(x)
    ensures Filter(a + b, p) == b
  {
    FilterConcat(a, b, p);
    FilterNone(a, p);
    FilterAll(b, p);
  }

  /** What a prefix filters to starts what the whole filters to. */
  lemma FilterPrefix<T(!new)>(s: seq<T>, i: nat, p: T -> bool)
    requires i <= |s|
    ensures Filter(s[..i], p) <= Filter(s, p)
  {
    assert s[..i] + s[i..] == s;
    FilterConcat(s[..i], s[i..], p);
  }

  lemma FilterOnlyOne<T(!new)>(s: seq<T>, i: nat, p: T -> bool)
    requires i < |s| && forall j :: 0 <= j < |s| ==> (p(s[j]) <==> j == i)
    ensures Filter(s, p) == [s[i]]
  {
    assert s == s[..i] + ([s[i]] + s[i + 1..]);
    FilterConcat(s[..i], [s[i]] + s[i + 1..], p);
    FilterCons(s[i], s[i + 1..], p);
    FilterNone(s[..i], p);
    FilterNone(s[i + 1..], p);
  }

  lemma FilterSeveral<T(!new)>(s: seq<T>, i: nat, j: nat, p: T -> bool)
    requires i < j < |s| && p(s[i]) && p(s[j])
    ensures |Filter(s, p)| > 1
  {
    assert s == s[..j] + s[j..];
    FilterConcat(s[..j], s[j..], p);
    assert s[..j][i] in Filter(s[..j], p) && s[j..][0] in Filter(s[j..], p);
  }

  function Reversed<T>(s: seq<T>): (r: seq<T>)
    ensures |r| == |s| && forall i :: 0 <= i < |s| ==> r[i] == s[|s| - 1 - i]
  {
    seq(|s|, i requires 0 <= i < |s| => s[|s| - 1 - i])
  }

  /** `rel` holds between every element and every later one. */
  ghost predicate Pairwise<T(!new)>(s: seq<T>, rel: (T, T) -> bool) {
    forall i, j :: 0 <= i < j < |s| ==> rel(s[i], s[j])
  }

  lemma {:induction false} FilterPairwise<T(!new)>(s: seq<T>, p: T -> bool, rel: (T, T) -> bool)
    requires Pairwise(s, rel)
    ensures Pairwise(Filter(s, p), rel)
  {
    if s != [] {
      FilterPairwise(s[1..], p, rel);
      if p(s[0]) {
        var rest := Filter(s[1..], p);
        forall j | 0 <= j < |rest|
          ensures rel(s[0], rest[j])
        {
          assert rest[j] in rest;
          var k :| 0 <= k < |s[1..]| && s[1..][k] == rest[j];
          assert s[k + 1] == rest[j];
        }
      }
    }
  }

  lemma {:induction false} FilterAll<T(!new)>(s: seq<T>, p: T -> bool)
    requires forall x :: x in s ==> p(x)
    ensures Filter(s, p) == s
  {
    if s != [] {
      assert s[0] in s;
      FilterAll(s[1..], p);
    }
  }

  lemma SubsetOfSameSize<T>(a: set<T>, b: set<T>)
    requires a <= b && |a| == |b|
    ensures a == b
  {
    if a != b {
      var x :| x in b && x !in a;
      SubsetCardinality(a, b - {x});
    }
  }

  lemma {:induction false} SubsetCardinality<T>(a: set<T>, b: set<T>)
    requires a <= b
    ensures |a| <= |b|
  {
    if x :| x in a {
      SubsetCardinality(a - {x}, b - {x});
    }
  }

  function Iterate<T(!new)>(f: T -> T, x: T, n: nat): T {
    if n == 0 then x else f(Iterate(f, x, n - 1))
  }

  /** What is left of a size after taking away `n`. */
  function SizeAfter(size: nat, n: nat): nat {
    if size < n then 0 else size - n
  }

  lemma {:induction false} IterateShrinks<T(!new)>(f: T -> T, ok: T -> bool, size: T -> nat, x: T, n: nat)
    requires ok(x) && forall y :: ok(y) ==> ok(f(y)) && size(f(y)) == SizeAfter(size(y), 1)
    ensures ok(Iterate(f, x, n)) && size(Iterate(f, x, n)) == SizeAfter(size(x), n)
  {
    if n > 0 {
      IterateShrinks(f, ok, size, x, n - 1);
    }
  }
}
