/**
 Canonical ordering of names (dnssec/doe/functions.go).

 The code orders names label by label from the root, comparing the bytes of each label after
 expanding \DDD escapes into UTF-8 text. The lemmas show that this is a total preorder in which
 every subtree is an interval, and that it agrees about a name with the octet order of section 6.1
 of RFC 4034 exactly when the name has no escape but \DDD, and none for an upper-case letter.
 */
module CanonicalOrder {
  import opened Names

  const BACKSLASH: Octet := 92

  type CodePoint = c: int | 0 <= c < 0x800

  // ---------------------------------------------------------------- lexicographic order

  function CompareInts(x: int, y: int): int {
    if x < y then -1 else if x > y then 1 else 0
  }

  function Lex<T>(cmp: (T, T) -> int, a: seq<T>, b: seq<T>): int {
    if a == [] || b == [] then CompareInts(|a|, |b|)
    else if cmp(a[0], b[0]) < 0 then -1
    else if cmp(a[0], b[0]) > 0 then 1
    else Lex(cmp, a[1..], b[1..])
  }

  ghost predicate TotalOrder<T(!new)>(cmp: (T, T) -> int) {
    && (forall x, y :: cmp(x, y) == 0 <==> x == y)
    && (forall x, y :: cmp(x, y) < 0 <==> cmp(y, x) > 0)
    && (forall x, y, z :: cmp(x, y) < 0 && cmp(y, z) < 0 ==> cmp(x, z) < 0)
  }

  lemma {:induction false} LexEqual<T(!new)>(cmp: (T, T) -> int, a: seq<T>, b: seq<T>)
    requires TotalOrder(cmp)
    ensures Lex(cmp, a, b) == 0 <==> a == b
    ensures Lex(cmp, a, b) == -Lex(cmp, b, a)
  {
    if a != [] && b != [] && cmp(a[0], b[0]) == 0 {
      LexEqual(cmp, a[1..], b[1..]);
      assert a == [a[0]] + a[1..] && b == [b[0]] + b[1..];
    }
  }

  lemma {:induction false} LexTransitive<T(!new)>(cmp: (T, T) -> int, a: seq<T>, b: seq<T>, c: seq<T>)
    requires TotalOrder(cmp)
    requires Lex(cmp, a, b) < 0 && Lex(cmp, b, c) < 0
    ensures Lex(cmp, a, c) < 0
  {
    if a != [] && cmp(a[0], b[0]) == 0 && cmp(b[0], c[0]) == 0 {
      LexTransitive(cmp, a[1..], b[1..], c[1..]);
    }
  }

  lemma LexIsTotalOrder<T(!new)>(cmp: (T, T) -> int)
    requires TotalOrder(cmp)
    ensures TotalOrder((a, b) => Lex(cmp, a, b))
  {
    var lex := (a, b) => Lex(cmp, a, b);
    forall a, b
      ensures lex(a, b) == 0 <==> a == b
      ensures lex(a, b) < 0 <==> lex(b, a) > 0
    {
      LexEqual(cmp, a, b);
    }
    forall a, b, c | lex(a, b) < 0 && lex(b, c) < 0
      ensures lex(a, c) < 0
    {
      LexTransitive(cmp, a, b, c);
    }
  }

  /** A proper prefix sorts first. */
  lemma {:induction false} LexPrefixFirst<T(!new)>(cmp: (T, T) -> int, p: seq<T>, a: seq<T>)
    requires TotalOrder(cmp)
    requires p < a
    ensures Lex(cmp, p, a) < 0
  {
    if p != [] {
      LexPrefixFirst(cmp, p[1..], a[1..]);
    }
  }

  /** Whatever lies between two extensions of a prefix extends it as well. */
  lemma {:induction false} LexPrefixInterval<T(!new)>(cmp: (T, T) -> int, p: seq<T>, a: seq<T>, x: seq<T>, b: seq<T>)
    requires TotalOrder(cmp)
    requires p <= a && p <= b
    requires Lex(cmp, a, x) <= 0 && Lex(cmp, x, b) <= 0
    ensures p <= x
  {
    if p != [] {
      assert x != [];
      assert a[0] == p[0] && b[0] == p[0];
      LexPrefixInterval(cmp, p[1..], a[1..], x[1..], b[1..]);
      assert x == [x[0]] + x[1..] && p == [p[0]] + p[1..];
    }
  }

  lemma {:induction false} LexCommonPrefix<T(!new)>(cmp: (T, T) -> int, p: seq<T>, a: seq<T>, b: seq<T>)
    requires TotalOrder(cmp)
    ensures Lex(cmp, p + a, p + b) == Lex(cmp, a, b)
  {
    if p == [] {
      assert p + a == a && p + b == b;
    } else {
      LexCommonPrefix(cmp, p[1..], a, b);
      assert (p + a)[1..] == p[1..] + a && (p + b)[1..] == p[1..] + b;
    }
  }

  // ---------------------------------------------------------------- decoding labels

  predicate IsDigit(o: Octet) {
    48 <= o <= 57
  }

  function DigitValue(o: Octet): nat
    requires IsDigit(o)
  {
    (o as int) - 48
  }

  /** A \DDD escape starts here and its three digits lie inside the label. */
  predicate EscapeAt(l: Label, i: nat) {
    i + 3 < |l| && l[i] == BACKSLASH && IsDigit(l[i + 1]) && IsDigit(l[i + 2]) && IsDigit(l[i + 3])
  }

  function EscapeValue(l: Label, i: nat): (v: nat)
    requires EscapeAt(l, i)
    ensures v < 1000
  {
    100 * DigitValue(l[i + 1]) + 10 * DigitValue(l[i + 2]) + DigitValue(l[i + 3])
  }

  /** The code points a label stands for, from position `i` on. */
  function CodePoints(l: Label, i: nat): seq<CodePoint>
    requires i <= |l|
    decreases |l| - i
  {
    if i == |l| then []
    else if EscapeAt(l, i) then [EscapeValue(l, i)] + CodePoints(l, i + 4)
    else [l[i]] + CodePoints(l, i + 1)
  }

  /** UTF-8 encoding; two bytes are enough for every value an escape can have. */
  function Utf8(c: CodePoint): seq<int> {
    if c < 128 then [c] else [192 + c / 64, 128 + c % 64]
  }

  function Utf8All(s: seq<CodePoint>): seq<int> {
    if s == [] then [] else Utf8(s[0]) + Utf8All(s[1..])
  }

  lemma {:induction false} Utf8Snoc(s: seq<CodePoint>, c: CodePoint)
    ensures Utf8All(s + [c]) == Utf8All(s) + Utf8(c)
  {
    if s == [] {
      assert s + [c] == [c];
    } else {
      Utf8Snoc(s[1..], c);
      assert (s + [c])[1..] == s[1..] + [c];
    }
  }

  /** One turn of the decoding loop: an escape or a single octet. */
  method NextCodePoint(text: Label, i: nat) returns (c: CodePoint, next: nat)
    requires i < |text|
    ensures i < next <= |text|
    ensures var cs := CodePoints(text, i); cs != [] && cs[0] == c && cs[1..] == CodePoints(text, next)
  {
    if EscapeAt(text, i) {
      return EscapeValue(text, i), i + 4;
    }
    return text[i], i + 1;
  }

  method DecodeEscaped(text: Label) returns (decoded: seq<int>)
    ensures decoded == Utf8All(CodePoints(text, 0))
  {
    decoded := [];
    ghost var points: seq<CodePoint>, rest := [], CodePoints(text, 0);
    var i := 0;
    while i < |text|
      invariant i <= |text| && rest == CodePoints(text, i)
      invariant decoded == Utf8All(points) && points + rest == CodePoints(text, 0)
    {
      var c, next := NextCodePoint(text, i);
      rest := DecodeStep(points, rest, c);
      decoded, points, i := decoded + Utf8(c), points + [c], next;
    }
    assert points == points + rest;
  }

  lemma DecodeStep(points: seq<CodePoint>, rest: seq<CodePoint>, c: CodePoint) returns (tail: seq<CodePoint>)
    requires rest != [] && rest[0] == c
    ensures tail == rest[1..] && (points + [c]) + tail == points + rest
    ensures Utf8All(points + [c]) == Utf8All(points) + Utf8(c)
  {
    tail := rest[1..];
    Utf8Snoc(points, c);
  }

  /** The byte string a label is compared by. */
  function LabelKey(l: Label): seq<int> {
    if BACKSLASH in l then Utf8All(CodePoints(l, 0)) else l
  }

  function NameKey(n: Name): (k: seq<seq<int>>)
    ensures |k| == |n|
  {
    var c := Canonical(n);
    seq(|n|, i requires 0 <= i < |n| => LabelKey(c[i]))
  }

  function CompareBytes(x: seq<int>, y: seq<int>): int {
    Lex(CompareInts, x, y)
  }

  function CanonicalCmp(a: Name, b: Name): int {
    Lex(CompareBytes, NameKey(a), NameKey(b))
  }

  lemma CompareBytesIsTotalOrder()
    ensures TotalOrder(CompareBytes)
  {
    LexIsTotalOrder(CompareInts);
    var lex := (a, b) => Lex(CompareInts, a, b);
    assert forall x, y :: CompareBytes(x, y) == lex(x, y);
  }

  method CompareNames(a: Name, b: Name) returns (r: int)
    ensures r == CanonicalCmp(a, b)
  {
    CompareBytesIsTotalOrder();
    var labelsA, labelsB := Canonical(a), Canonical(b);
    ghost var keysA, keysB := NameKey(a), NameKey(b);
    var minLength := if |labelsA| < |labelsB| then |labelsA| else |labelsB|;
    for i := 0 to minLength
      invariant CanonicalCmp(a, b) == Lex(CompareBytes, keysA[i..], keysB[i..])
    {
      var labelA: seq<int>, labelB: seq<int> := labelsA[i], labelsB[i];
      if BACKSLASH in labelA {
        labelA := DecodeEscaped(labelsA[i]);
      }
      if BACKSLASH in labelB {
        labelB := DecodeEscaped(labelsB[i]);
      }
      assert keysA[i..][0] == labelA && keysB[i..][0] == labelB;
      if labelA != labelB {
        var c := CompareBytes(labelA, labelB);
        return if c < 0 then -1 else 1;
      }
      assert keysA[i..][1..] == keysA[i + 1..] && keysB[i..][1..] == keysB[i + 1..];
    }
    return CompareInts(|labelsA|, |labelsB|);
  }

  // ---------------------------------------------------------------- the order on names

  /** Total preorder; two names compare equal exactly when all their decoded labels agree. */
  lemma CanonicalCmpIsTotalPreorder(a: Name, b: Name, c: Name)
    ensures CanonicalCmp(a, b) == 0 <==> NameKey(a) == NameKey(b)
    ensures CanonicalCmp(a, b) == -CanonicalCmp(b, a)
    ensures CanonicalCmp(a, b) <= 0 && CanonicalCmp(b, c) <= 0 ==> CanonicalCmp(a, c) <= 0
    ensures CanonicalCmp(a, b) < 0 && CanonicalCmp(b, c) <= 0 ==> CanonicalCmp(a, c) < 0
    ensures CanonicalCmp(a, b) <= 0 && CanonicalCmp(b, c) < 0 ==> CanonicalCmp(a, c) < 0
  {
    CompareBytesIsTotalOrder();
    LexEqual(CompareBytes, NameKey(a), NameKey(b));
    LexEqual(CompareBytes, NameKey(b), NameKey(c));
    if CanonicalCmp(a, b) < 0 && CanonicalCmp(b, c) < 0 {
      LexTransitive(CompareBytes, NameKey(a), NameKey(b), NameKey(c));
    }
  }

  /** Comparison does not tell names apart that differ in case only. */
  lemma EqualNamesCompareAlike(a: Name, b: Name, c: Name)
    requires NamesEqual(a, b)
    ensures NameKey(a) == NameKey(b)
    ensures CanonicalCmp(a, c) == CanonicalCmp(b, c) && CanonicalCmp(c, a) == CanonicalCmp(c, b)
  {
  }

  /** `n` is `p` or below it, as far as comparison can tell. */
  predicate Under(p: Name, n: Name) {
    NameKey(p) <= NameKey(n)
  }

  lemma SubDomainIsUnder(p: Name, n: Name)
    requires IsSubDomain(p, n)
    ensures Under(p, n)
  {
    assert forall i :: 0 <= i < |p| ==> Canonical(p)[i] == Canonical(n)[i];
  }

  /** Every proper ancestor sorts before its descendants. */
  lemma AncestorSortsFirst(p: Name, n: Name)
    requires IsProperSubDomain(p, n)
    ensures CanonicalCmp(p, n) < 0
  {
    CompareBytesIsTotalOrder();
    SubDomainIsUnder(p, n);
    LexPrefixFirst(CompareBytes, NameKey(p), NameKey(n));
  }

  /** Each subtree is a contiguous interval of the order. */
  lemma SubtreeIsInterval(p: Name, a: Name, x: Name, b: Name)
    requires Under(p, a) && Under(p, b)
    requires CanonicalCmp(a, x) <= 0 && CanonicalCmp(x, b) <= 0
    ensures Under(p, x)
  {
    CompareBytesIsTotalOrder();
    LexPrefixInterval(CompareBytes, NameKey(p), NameKey(a), NameKey(x), NameKey(b));
  }

  // ---------------------------------------------------------------- section 6.1 of RFC 4034

  /** UTF-8 keeps the order of code points, although it changes their length. */
  lemma {:induction false} Utf8KeepsOrder(a: seq<CodePoint>, b: seq<CodePoint>)
    ensures CompareBytes(Utf8All(a), Utf8All(b)) == CompareBytes(a, b)
  {
    if a != [] && b != [] {
      Utf8KeepsOrder(a[1..], b[1..]);
      var x, y := Utf8All(a[1..]), Utf8All(b[1..]);
      if a[0] == b[0] {
        LexCommonPrefix(CompareInts, Utf8(a[0]), x, y);
      } else {
        var u, v := Utf8(a[0]) + x, Utf8(b[0]) + y;
        if a[0] >= 128 && b[0] >= 128 && a[0] / 64 == b[0] / 64 {
          assert u[0] == v[0] && u[1..][0] == 128 + a[0] % 64 && v[1..][0] == 128 + b[0] % 64;
          assert CompareBytes(u, v) == CompareBytes(u[1..], v[1..]) == CompareInts(a[0] % 64, b[0] % 64);
        }
      }
    }
  }

  predicate IsUpper(c: int) {
    65 <= c <= 90
  }

  /** A backslash that makes the next character stand for itself. */
  predicate CharEscapeAt(l: Label, i: nat) {
    i + 1 < |l| && l[i] == BACKSLASH && !EscapeAt(l, i)
  }

  /** The octets a label stands for (section 5.1 of RFC 1035), from position `i` on. */
  function Wire(l: Label, i: nat): seq<Octet>
    requires i <= |l|
    decreases |l| - i
  {
    if i == |l| then []
    else if EscapeAt(l, i) then [EscapeValue(l, i) % 256] + Wire(l, i + 4)
    else if CharEscapeAt(l, i) then [l[i + 1]] + Wire(l, i + 2)
    else [l[i]] + Wire(l, i + 1)
  }

  /** ASCII text whose escapes are complete and stand for octets. */
  predicate Proper(l: Label, i: nat)
    requires i <= |l|
    decreases |l| - i
  {
    i == |l| ||
    if EscapeAt(l, i) then EscapeValue(l, i) < 256 && Proper(l, i + 4)
    else if CharEscapeAt(l, i) then l[i + 1] < 128 && Proper(l, i + 2)
    else l[i] < 128 && l[i] != BACKSLASH && Proper(l, i + 1)
  }

  /** No escape but \DDD, and none for an upper-case letter. */
  predicate Faithful(l: Label, i: nat)
    requires i <= |l|
    decreases |l| - i
  {
    i == |l| ||
    if EscapeAt(l, i) then EscapeValue(l, i) < 256 && !IsUpper(EscapeValue(l, i)) && Faithful(l, i + 4)
    else l[i] < 128 && l[i] != BACKSLASH && Faithful(l, i + 1)
  }

  lemma {:induction false} FaithfulIsProper(l: Label, i: nat)
    requires i <= |l| && Faithful(l, i)
    ensures Proper(l, i)
    decreases |l| - i
  {
    if i < |l| {
      FaithfulIsProper(l, if EscapeAt(l, i) then i + 4 else i + 1);
    }
  }

  lemma LowerKeepsEscapes(l: Label, i: nat)
    ensures EscapeAt(LowerLabel(l), i) <==> EscapeAt(l, i)
    ensures EscapeAt(l, i) ==> EscapeValue(LowerLabel(l), i) == EscapeValue(l, i)
  {
  }

  /** What the code reads of a lower-cased label, from position `i` on. */
  function Read(l: Label, i: nat): seq<int>
    requires i <= |l|
  {
    CodePoints(LowerLabel(l), i)
  }

  /** What it should read: the lower-cased octets. */
  function Sent(l: Label, i: nat): seq<int>
    requires i <= |l|
  {
    LowerLabel(Wire(l, i))
  }

  lemma ReadStep(l: Label, i: nat)
    requires i < |l|
    ensures Read(l, i) == if EscapeAt(l, i) then [EscapeValue(l, i)] + Read(l, i + 4) else [Lower(l[i])] + Read(l, i + 1)
  {
    LowerKeepsEscapes(l, i);
  }

  lemma SentStep(l: Label, i: nat)
    requires i < |l|
    ensures Sent(l, i) ==
      if EscapeAt(l, i) then [Lower(EscapeValue(l, i) % 256)] + Sent(l, i + 4)
      else if CharEscapeAt(l, i) then [Lower(l[i + 1])] + Sent(l, i + 2)
      else [Lower(l[i])] + Sent(l, i + 1)
  {
    var next := if EscapeAt(l, i) then i + 4 else if CharEscapeAt(l, i) then i + 2 else i + 1;
    assert Wire(l, i) == [Wire(l, i)[0]] + Wire(l, next);
    LowerCons(Wire(l, i)[0], Wire(l, next));
  }

  lemma LowerCons(o: Octet, rest: seq<Octet>)
    ensures LowerLabel([o] + rest) == [Lower(o)] + LowerLabel(rest)
  {
  }

  lemma NumericStep(l: Label, i: nat)
    requires EscapeAt(l, i) && EscapeValue(l, i) < 256
    ensures var v: Octet := EscapeValue(l, i);
      Sent(l, i) == [Lower(v)] + Sent(l, i + 4) && Read(l, i) == [v as int] + Read(l, i + 4)
  {
    ReadStep(l, i);
    SentStep(l, i);
    assert EscapeValue(l, i) % 256 == EscapeValue(l, i);
  }

  lemma PlainStep(l: Label, i: nat)
    requires i < |l| && l[i] != BACKSLASH
    ensures Sent(l, i) == [Lower(l[i])] + Sent(l, i + 1) && Read(l, i) == [Lower(l[i])] + Read(l, i + 1)
  {
    ReadStep(l, i);
    SentStep(l, i);
  }

  /** A faithful label is decoded to its octets. */
  lemma {:induction false} FaithfulIsRead(l: Label, i: nat)
    requires i <= |l| && Faithful(l, i)
    ensures Read(l, i) == Sent(l, i)
    decreases |l| - i
  {
    if i < |l| {
      if EscapeAt(l, i) {
        NumericStep(l, i);
        FaithfulIsRead(l, i + 4);
      } else {
        PlainStep(l, i);
        FaithfulIsRead(l, i + 1);
      }
    }
  }

  // ---------------------------------------------------------------- labels that are misread

  lemma ShiftStep(p: seq<int>, x: int, xs: seq<int>, y: int, ys: seq<int>)
    requires p != [] && BACKSLASH !in p && (x != BACKSLASH ==> y != BACKSLASH) && [x] + xs == p + ([y] + ys)
    ensures BACKSLASH !in p[1..] + [y] && xs == (p[1..] + [y]) + ys
  {
    assert ([x] + xs)[0] == x && ([x] + xs)[1..] == xs && (p + ([y] + ys))[0] == p[0];
    assert p[0] in p;
    assert (p + ([y] + ys))[1..] == (p[1..] + [y]) + ys;
  }

  lemma CharIsNotShifted(l: Label, i: nat, p: seq<int>)
    requires i < |l| && CharEscapeAt(l, i) && p != [] && BACKSLASH !in p
    ensures Read(l, i) != p + Sent(l, i)
  {
    ReadStep(l, i);
    assert p[0] in p && (p + Sent(l, i))[0] == p[0] && Read(l, i)[0] == BACKSLASH;
  }

  /** What is read is never the octets behind a prefix without a backslash. */
  lemma {:induction false} NotShifted(l: Label, i: nat, p: seq<int>)
    requires i <= |l| && Proper(l, i) && p != [] && BACKSLASH !in p
    ensures Read(l, i) != p + Sent(l, i)
    decreases |l| - i
  {
    if i < |l| {
      if CharEscapeAt(l, i) {
        CharIsNotShifted(l, i, p);
      } else if EscapeAt(l, i) {
        NumericStep(l, i);
        var v: Octet := EscapeValue(l, i);
        if Read(l, i) == p + Sent(l, i) {
          ShiftStep(p, v, Read(l, i + 4), Lower(v), Sent(l, i + 4));
          NotShifted(l, i + 4, p[1..] + [Lower(v)]);
        }
      } else {
        PlainStep(l, i);
        var o := Lower(l[i]);
        if Read(l, i) == p + Sent(l, i) {
          ShiftStep(p, o, Read(l, i + 1), o, Sent(l, i + 1));
          NotShifted(l, i + 1, p[1..] + [o]);
        }
      }
    }
  }

  function Backslashes(n: nat): (r: seq<int>)
    ensures |r| == n && forall i :: 0 <= i < n ==> r[i] == BACKSLASH
  {
    seq(n, _ => BACKSLASH)
  }

  lemma BackslashStep(n: nat, y: int, ys: seq<int>, xs: seq<int>)
    requires n > 0 && [y] + ys == Backslashes(n) + ([BACKSLASH] + xs)
    ensures y == BACKSLASH && ys == Backslashes(n) + xs
  {
    assert ([y] + ys)[0] == y && ([y] + ys)[1..] == ys;
    var s := Backslashes(n) + ([BACKSLASH] + xs);
    assert s[1..] == Backslashes(n) + xs;
  }

  lemma BackslashBoth(n: nat, v: Octet, ys: seq<int>, xs: seq<int>)
    requires n > 0 && [Lower(v)] + ys == Backslashes(n) + ([v as int] + xs)
    ensures ys == Backslashes(n) + xs
  {
    assert ([Lower(v)] + ys)[0] == Lower(v) && (Backslashes(n) + ([v as int] + xs))[0] == BACKSLASH;
    BackslashStep(n, BACKSLASH, ys, xs);
  }

  lemma BehindNumeric(l: Label, i: nat, n: nat)
    requires EscapeAt(l, i) && EscapeValue(l, i) < 256 && n > 0
    ensures Sent(l, i) == Backslashes(n) + Read(l, i) ==> Sent(l, i + 4) == Backslashes(n) + Read(l, i + 4)
  {
    NumericStep(l, i);
    if Sent(l, i) == Backslashes(n) + Read(l, i) {
      BackslashBoth(n, EscapeValue(l, i), Sent(l, i + 4), Read(l, i + 4));
    }
  }

  lemma BehindChar(l: Label, i: nat, n: nat)
    requires i < |l| && Proper(l, i) && CharEscapeAt(l, i) && n > 0
    ensures Sent(l, i) == Backslashes(n) + Read(l, i) ==> Sent(l, i + 2) == Backslashes(n + 1) + Read(l, i + 2)
  {
    ReadStep(l, i);
    SentStep(l, i);
    if Sent(l, i) == Backslashes(n) + Read(l, i) {
      assert Sent(l, i)[0] == BACKSLASH;
      BackslashStep(n, BACKSLASH, Sent(l, i + 2), Read(l, i + 1));
      BehindDoubled(l, i, n);
    }
  }

  lemma BehindPlain(l: Label, i: nat, n: nat)
    requires i < |l| && l[i] != BACKSLASH && n > 0
    ensures Sent(l, i) != Backslashes(n) + Read(l, i)
  {
    SentStep(l, i);
    assert Sent(l, i)[0] == Lower(l[i]) && (Backslashes(n) + Read(l, i))[0] == BACKSLASH;
  }

  /** Nor are the octets what is read behind backslashes. */
  lemma {:induction false} NotBehindBackslashes(l: Label, i: nat, n: nat)
    requires i <= |l| && Proper(l, i) && n > 0
    ensures Sent(l, i) != Backslashes(n) + Read(l, i)
    decreases |l| - i
  {
    if i < |l| {
      if EscapeAt(l, i) {
        BehindNumeric(l, i, n);
        NotBehindBackslashes(l, i + 4, n);
      } else if CharEscapeAt(l, i) {
        BehindChar(l, i, n);
        NotBehindBackslashes(l, i + 2, n + 1);
      } else {
        BehindPlain(l, i, n);
      }
    }
  }

  /** A second backslash is read as one more, and digits after it are no backslashes. */
  lemma BehindDoubled(l: Label, i: nat, n: nat)
    requires i + 1 < |l| && Proper(l, i) && CharEscapeAt(l, i) && l[i + 1] == BACKSLASH && n > 0
    ensures Sent(l, i + 2) == Backslashes(n) + Read(l, i + 1) ==> Sent(l, i + 2) == Backslashes(n + 1) + Read(l, i + 2)
  {
    ReadStep(l, i + 1);
    if EscapeAt(l, i + 1) {
      ThreeDigits(l, i);
      assert Sent(l, i + 2)[0] == l[i + 2] && (Backslashes(n) + Read(l, i + 1))[0] == BACKSLASH;
    } else {
      assert Backslashes(n) + ([BACKSLASH] + Read(l, i + 2)) == Backslashes(n + 1) + Read(l, i + 2);
    }
  }

  lemma DigitIsSent(l: Label, i: nat)
    requires i < |l| && IsDigit(l[i])
    ensures Sent(l, i) == [l[i]] + Sent(l, i + 1)
  {
    SentStep(l, i);
  }

  lemma ThreeDigits(l: Label, i: nat)
    requires i + 4 < |l| && EscapeAt(l, i + 1)
    ensures Sent(l, i + 2) == [l[i + 2]] + ([l[i + 3], l[i + 4]] + Sent(l, i + 5))
  {
    DigitIsSent(l, i + 2);
    DigitIsSent(l, i + 3);
    DigitIsSent(l, i + 4);
    JoinTwo(l[i + 3], l[i + 4], Sent(l, i + 5));
  }

  lemma JoinTwo(a: int, b: int, rest: seq<int>)
    ensures [a] + ([b] + rest) == [a, b] + rest
  {
  }

  lemma TailsDiffer(x: int, a: seq<int>, y: int, b: seq<int>)
    requires a != b
    ensures [x] + a != [y] + b
  {
    assert ([x] + a)[1..] == a && ([y] + b)[1..] == b;
  }

  lemma ProperAfterDigits(l: Label, i: nat)
    requires EscapeAt(l, i + 1) && Proper(l, i + 2)
    ensures Proper(l, i + 5)
  {
    assert Proper(l, i + 3);
    assert Proper(l, i + 4);
  }

  lemma DoubledBeforeDigits(l: Label, i: nat)
    requires EscapeAt(l, i + 1) && Proper(l, i + 2)
    ensures Read(l, i + 1) != Sent(l, i + 2)
  {
    ReadStep(l, i + 1);
    ThreeDigits(l, i);
    ProperAfterDigits(l, i);
    NotShifted(l, i + 5, [l[i + 3], l[i + 4]]);
    TailsDiffer(EscapeValue(l, i + 1), Read(l, i + 5), l[i + 2], [l[i + 3], l[i + 4]] + Sent(l, i + 5));
  }

  /** A doubled backslash is read as two, or runs into the digits behind it. */
  lemma DoubledIsMisread(l: Label, i: nat)
    requires i + 1 < |l| && Proper(l, i) && CharEscapeAt(l, i) && l[i + 1] == BACKSLASH
    ensures Read(l, i + 1) != Sent(l, i + 2)
  {
    if EscapeAt(l, i + 1) {
      DoubledBeforeDigits(l, i);
    } else {
      ReadStep(l, i + 1);
      NotBehindBackslashes(l, i + 2, 1);
      assert [BACKSLASH] + Read(l, i + 2) == Backslashes(1) + Read(l, i + 2);
    }
  }

  lemma CharIsMisread(l: Label, i: nat)
    requires i < |l| && Proper(l, i) && CharEscapeAt(l, i)
    ensures Read(l, i) != Sent(l, i)
  {
    ReadStep(l, i);
    SentStep(l, i);
    if l[i + 1] == BACKSLASH {
      DoubledIsMisread(l, i);
      assert Read(l, i)[1..] == Read(l, i + 1) && Sent(l, i)[1..] == Sent(l, i + 2);
    } else {
      assert Read(l, i)[0] == BACKSLASH && Sent(l, i)[0] == Lower(l[i + 1]);
    }
  }

  /** Every other label is misread. */
  lemma {:induction false} UnfaithfulIsMisread(l: Label, i: nat)
    requires i <= |l| && Proper(l, i) && !Faithful(l, i)
    ensures Read(l, i) != Sent(l, i)
    decreases |l| - i
  {
    if EscapeAt(l, i) {
      var v := EscapeValue(l, i);
      NumericStep(l, i);
      if IsUpper(v) {
        assert Read(l, i)[0] == v && Sent(l, i)[0] == v + 32;
      } else {
        UnfaithfulIsMisread(l, i + 4);
        TailsDiffer(v, Read(l, i + 4), v, Sent(l, i + 4));
      }
    } else if CharEscapeAt(l, i) {
      CharIsMisread(l, i);
    } else {
      PlainStep(l, i);
      UnfaithfulIsMisread(l, i + 1);
      TailsDiffer(Lower(l[i]), Read(l, i + 1), Lower(l[i]), Sent(l, i + 1));
    }
  }

  lemma {:induction false} PlainTextIsItsOwnUtf8(l: Label, i: nat)
    requires i <= |l| && BACKSLASH !in l && forall c :: c in l ==> c < 128
    ensures Utf8All(CodePoints(l, i)) == l[i..]
    decreases |l| - i
  {
    if i < |l| {
      assert l[i] in l;
      PlainTextIsItsOwnUtf8(l, i + 1);
      assert l[i..] == [l[i]] + l[i + 1..];
    }
  }

  lemma {:induction false} ProperPlainIsAscii(l: Label, i: nat, k: nat)
    requires i <= k < |l| && Proper(l, i) && BACKSLASH !in l
    ensures l[k] < 128
    decreases |l| - i
  {
    assert l[i] in l;
    if i < k {
      ProperPlainIsAscii(l, i + 1, k);
    }
  }

  lemma ProperKeyIsUtf8(l: Label)
    requires Proper(l, 0)
    ensures LabelKey(LowerLabel(l)) == Utf8All(CodePoints(LowerLabel(l), 0))
  {
    var low := LowerLabel(l);
    assert forall k :: 0 <= k < |l| ==> (l[k] == BACKSLASH <==> low[k] == BACKSLASH);
    if BACKSLASH !in low {
      forall k | 0 <= k < |l|
        ensures low[k] < 128
      {
        assert BACKSLASH !in l;
        ProperPlainIsAscii(l, 0, k);
      }
      PlainTextIsItsOwnUtf8(low, 0);
    }
  }

  // ---------------------------------------------------------------- names on the wire

  /** Labels as left-justified strings of lower-cased octets, root first. */
  function OctetKey(n: Name): (k: seq<seq<int>>)
    ensures |k| == |n|
  {
    seq(|n|, i requires 0 <= i < |n| => LowerLabel(Wire(n[i], 0)))
  }

  /** The reference order. */
  function OctetOrder(a: Name, b: Name): int {
    Lex(CompareBytes, OctetKey(a), OctetKey(b))
  }

  /** `n` is `p` or below it on the wire. */
  predicate OctetUnder(p: Name, n: Name) {
    OctetKey(p) <= OctetKey(n)
  }

  predicate ProperName(n: Name) {
    forall i :: 0 <= i < |n| ==> Proper(n[i], 0)
  }

  predicate FaithfulName(n: Name) {
    forall i :: 0 <= i < |n| ==> Faithful(n[i], 0)
  }

  lemma FaithfulNameIsProper(n: Name)
    requires FaithfulName(n)
    ensures ProperName(n)
  {
    forall i | 0 <= i < |n|
      ensures Proper(n[i], 0)
    {
      FaithfulIsProper(n[i], 0);
    }
  }

  lemma {:induction false} LowerIsSentAlike(l: Label, i: nat)
    requires i <= |l|
    ensures Sent(LowerLabel(l), i) == Sent(l, i) && (Faithful(LowerLabel(l), i) <==> Faithful(l, i))
    decreases |l| - i
  {
    if i < |l| {
      LowerKeepsEscapes(l, i);
      SentStep(l, i);
      SentStep(LowerLabel(l), i);
      LowerIsSentAlike(l, if EscapeAt(l, i) then i + 4 else i + 1);
      if CharEscapeAt(l, i) {
        LowerIsSentAlike(l, i + 2);
      }
    }
  }

  /** Case makes no difference on the wire. */
  lemma EqualNamesOnTheWire(a: Name, b: Name)
    requires NamesEqual(a, b)
    ensures OctetKey(a) == OctetKey(b) && (FaithfulName(a) <==> FaithfulName(b))
  {
    forall i | 0 <= i < |a|
      ensures OctetKey(a)[i] == OctetKey(b)[i] && (Faithful(a[i], 0) <==> Faithful(b[i], 0))
    {
      assert Canonical(a)[i] == Canonical(b)[i];
      LowerIsSentAlike(a[i], 0);
      LowerIsSentAlike(b[i], 0);
    }
  }

  lemma OctetOrderIsTotalPreorder(a: Name, b: Name, c: Name)
    ensures OctetOrder(a, b) == 0 <==> OctetKey(a) == OctetKey(b)
    ensures OctetOrder(a, b) == -OctetOrder(b, a)
    ensures OctetOrder(a, b) <= 0 && OctetOrder(b, c) < 0 ==> OctetOrder(a, c) < 0
    ensures OctetOrder(a, b) < 0 && OctetOrder(b, c) <= 0 ==> OctetOrder(a, c) < 0
  {
    CompareBytesIsTotalOrder();
    LexEqual(CompareBytes, OctetKey(a), OctetKey(b));
    LexEqual(CompareBytes, OctetKey(b), OctetKey(c));
    if OctetOrder(a, b) < 0 && OctetOrder(b, c) < 0 {
      LexTransitive(CompareBytes, OctetKey(a), OctetKey(b), OctetKey(c));
    }
  }

  lemma {:induction false} LexByPoints(u: seq<seq<int>>, v: seq<seq<int>>, x: seq<seq<int>>, y: seq<seq<int>>)
    requires |u| == |x| && |v| == |y|
    requires forall i :: 0 <= i < |u| && i < |v| ==> CompareBytes(u[i], v[i]) == CompareBytes(x[i], y[i])
    ensures Lex(CompareBytes, u, v) == Lex(CompareBytes, x, y)
  {
    if u != [] && v != [] {
      LexByPoints(u[1..], v[1..], x[1..], y[1..]);
    }
  }

  lemma FaithfulKey(n: Name, i: nat)
    requires i < |n| && Faithful(n[i], 0)
    ensures NameKey(n)[i] == Utf8All(OctetKey(n)[i])
  {
    FaithfulIsProper(n[i], 0);
    ProperKeyIsUtf8(n[i]);
    FaithfulIsRead(n[i], 0);
  }

  /** On faithful names the code computes the octet order, UTF-8 and case included. */
  lemma CanonicalCmpIsOctetOrder(a: Name, b: Name)
    requires FaithfulName(a) && FaithfulName(b)
    ensures CanonicalCmp(a, b) == OctetOrder(a, b)
  {
    forall i | 0 <= i < |a| && i < |b|
      ensures CompareBytes(NameKey(a)[i], NameKey(b)[i]) == CompareBytes(OctetKey(a)[i], OctetKey(b)[i])
    {
      FaithfulKey(a, i);
      FaithfulKey(b, i);
      Utf8KeepsOrder(OctetKey(a)[i], OctetKey(b)[i]);
    }
    LexByPoints(NameKey(a), NameKey(b), OctetKey(a), OctetKey(b));
  }

  lemma Utf8IsInjective(a: seq<CodePoint>, b: seq<CodePoint>)
    requires Utf8All(a) == Utf8All(b)
    ensures a == b
  {
    CompareBytesIsTotalOrder();
    Utf8KeepsOrder(a, b);
    assert CompareBytes(Utf8All(a), Utf8All(b)) == 0;
    assert CompareBytes(a, b) == 0;
  }

  /** And sees who is below whom. */
  lemma UnderIsOctetUnder(p: Name, n: Name)
    requires FaithfulName(p) && FaithfulName(n)
    ensures Under(p, n) <==> OctetUnder(p, n)
  {
    if |p| <= |n| {
      forall i | 0 <= i < |p|
        ensures NameKey(p)[i] == NameKey(n)[i] <==> OctetKey(p)[i] == OctetKey(n)[i]
      {
        FaithfulKey(p, i);
        FaithfulKey(n, i);
        if NameKey(p)[i] == NameKey(n)[i] {
          Utf8IsInjective(OctetKey(p)[i], OctetKey(n)[i]);
        }
      }
    }
  }

  // ---------------------------------------------------------------- when the orders agree

  function Escape(o: Octet): Label {
    [BACKSLASH, 48 + o / 100, 48 + o / 10 % 10, 48 + o % 10]
  }

  /** The octets with every one of them written as an escape. */
  function Respell(w: seq<Octet>): Label {
    if w == [] then [] else Escape(w[0]) + Respell(w[1..])
  }

  lemma EscapeIsRead(o: Octet, l: Label, i: nat)
    requires i + 4 <= |l| && l[i..i + 4] == Escape(o)
    ensures EscapeAt(l, i) && EscapeValue(l, i) == o
  {
    var e := l[i..i + 4];
    assert l[i] == e[0] && l[i + 1] == e[1] && l[i + 2] == e[2] && l[i + 3] == e[3];
  }

  lemma RespellStep(l: Label, i: nat, w: seq<Octet>)
    requires i <= |l| && l[i..] == Respell(w) && w != []
    ensures i + 4 <= |l| && l[i..i + 4] == Escape(w[0]) && l[i + 4..] == Respell(w[1..])
  {
    var rest := Respell(w[1..]);
    assert l[i..] == Escape(w[0]) + rest;
    assert l[i..i + 4] == l[i..][..4] && l[i + 4..] == l[i..][4..];
  }

  lemma {:induction false} RespellIsFaithful(l: Label, i: nat, w: seq<Octet>)
    requires i <= |l| && l[i..] == Respell(w) && forall k :: 0 <= k < |w| ==> !IsUpper(w[k])
    ensures Faithful(l, i) && Wire(l, i) == w
    decreases |w|
  {
    if w != [] {
      RespellStep(l, i, w);
      RespellIsFaithful(l, i + 4, w[1..]);
      EscapeIsRead(w[0], l, i);
      FaithfulEscape(l, i);
    }
  }

  lemma FaithfulEscape(l: Label, i: nat)
    requires EscapeAt(l, i) && EscapeValue(l, i) < 256 && !IsUpper(EscapeValue(l, i)) && Faithful(l, i + 4)
    ensures Faithful(l, i) && Wire(l, i) == [EscapeValue(l, i)] + Wire(l, i + 4)
  {
  }

  /** The same name on the wire, spelled faithfully. */
  function Respelled(n: Name): (r: Name)
    ensures |r| == |n|
  {
    seq(|n|, i requires 0 <= i < |n| => Respell(LowerLabel(Wire(n[i], 0))))
  }

  lemma RespelledLabel(l: Label)
    ensures var r := Respell(LowerLabel(Wire(l, 0)));
      Faithful(r, 0) && LowerLabel(Wire(r, 0)) == LowerLabel(Wire(l, 0))
  {
    var w := LowerLabel(Wire(l, 0));
    assert Respell(w)[0..] == Respell(w) && LowerLabel(w) == w;
    RespellIsFaithful(Respell(w), 0, w);
  }

  lemma RespelledIsSame(n: Name)
    ensures FaithfulName(Respelled(n)) && OctetKey(Respelled(n)) == OctetKey(n) && OctetOrder(n, Respelled(n)) == 0
  {
    forall i | 0 <= i < |n|
      ensures Faithful(Respelled(n)[i], 0) && OctetKey(Respelled(n))[i] == OctetKey(n)[i]
    {
      RespelledLabel(n[i]);
    }
    CompareBytesIsTotalOrder();
    LexEqual(CompareBytes, OctetKey(n), OctetKey(Respelled(n)));
  }

  /** A name that is not spelled faithfully is told apart from its own faithful spelling. */
  lemma MisreadName(n: Name)
    requires ProperName(n) && !FaithfulName(n)
    ensures CanonicalCmp(n, Respelled(n)) != 0
  {
    var r := Respelled(n);
    RespelledIsSame(n);
    var i :| 0 <= i < |n| && !Faithful(n[i], 0);
    UnfaithfulIsMisread(n[i], 0);
    ProperKeyIsUtf8(n[i]);
    FaithfulKey(r, i);
    if NameKey(n)[i] == NameKey(r)[i] {
      Utf8IsInjective(CodePoints(LowerLabel(n[i]), 0), OctetKey(r)[i]);
    }
    CanonicalCmpIsTotalPreorder(n, r, n);
  }

  /** The code's order and the octet order agree about a name, against all faithful names. */
  ghost predicate OrderAgrees(a: Name) {
    forall b: Name :: FaithfulName(b) ==> CanonicalCmp(a, b) == OctetOrder(a, b)
  }

  /** They do if and only if the name has no escape but \DDD, and none for an upper-case letter. */
  lemma OrderAgreesIff(a: Name)
    requires ProperName(a)
    ensures OrderAgrees(a) <==> FaithfulName(a)
  {
    if FaithfulName(a) {
      forall b: Name | FaithfulName(b)
        ensures CanonicalCmp(a, b) == OctetOrder(a, b)
      {
        CanonicalCmpIsOctetOrder(a, b);
      }
    } else {
      RespelledIsSame(a);
      MisreadName(a);
    }
  }

  /** The letter A written as an escape sorts before the caret. */
  lemma EscapedUpperCaseIsNotFolded()
    ensures var a: Name, b: Name := [[92, 48, 54, 53]], [[94]];
      CanonicalCmp(a, b) < 0 && OctetOrder(a, b) > 0
  {
    var a: Name, b: Name := [[92, 48, 54, 53]], [[94]];
    var l := Canonical(a)[0];
    assert l == [92, 48, 54, 53] == a[0];
    assert EscapeAt(l, 0) && EscapeValue(l, 0) == 65 && CodePoints(l, 4) == [] && Wire(l, 4) == [];
    assert l[0] == BACKSLASH;
    assert Utf8All(CodePoints(l, 0)) == [65];
    assert NameKey(a)[0] == [65] && NameKey(b)[0] == [94];
    assert Wire(b[0], 1) == [] && Wire(b[0], 0) == [94];
    assert OctetKey(a)[0] == [97] && OctetKey(b)[0] == [94];
  }

  /** A semicolon, which is printed with a backslash, sorts after the equals sign. */
  lemma EscapedSemicolonIsMisplaced()
    ensures var a: Name, b: Name := [[92, 59]], [[61]];
      CanonicalCmp(a, b) > 0 && OctetOrder(a, b) < 0
  {
    var a: Name, b: Name := [[92, 59]], [[61]];
    var l := Canonical(a)[0];
    assert l == [92, 59] == a[0];
    assert CharEscapeAt(l, 0) && Wire(l, 2) == [] && CodePoints(l, 2) == [] && CodePoints(l, 1) == [59];
    assert l[0] == BACKSLASH;
    assert CodePoints(l, 0) == [92, 59] && Utf8All([59]) == [59] && Utf8All(CodePoints(l, 0)) == [92, 59];
    assert NameKey(a)[0] == [92, 59] && NameKey(b)[0] == [61];
    assert Wire(b[0], 1) == [] && Wire(b[0], 0) == [61];
    assert OctetKey(a)[0] == [59] && OctetKey(b)[0] == [61];
  }

  /** Names that agree in all labels before `n` compare by label `n`. */
  lemma CompareLabelAt(u: seq<seq<int>>, v: seq<seq<int>>, n: nat)
    requires n < |u| && n < |v| && u[..n] == v[..n] && CompareBytes(u[n], v[n]) != 0
    ensures Lex(CompareBytes, u, v) < 0 <==> CompareBytes(u[n], v[n]) < 0
    ensures Lex(CompareBytes, u, v) > 0 <==> CompareBytes(u[n], v[n]) > 0
  {
    CompareBytesIsTotalOrder();
    assert u == u[..n] + u[n..] && v == v[..n] + v[n..];
    LexCommonPrefix(CompareBytes, u[..n], u[n..], v[n..]);
  }
}
