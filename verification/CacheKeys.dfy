/**
 The text keys of the message cache (server.go): printing a question as "name-type-class", and
 parsing a key back the way `getAllDomains` does.
 */
module CacheKeys {
  import opened Collections

  type Code = x: int | 0 <= x < 0x1_0000

  datatype Query = Query(name: string, qtype: Code, qclass: Code)

  const DASH := '-'

  predicate NoDash(s: string) {
    forall i :: 0 <= i < |s| ==> s[i] != DASH
  }

  // ---------------------------------------------------------------- decimal numbers

  function Digit(d: nat): char
    requires d < 10
  {
    (48 + d) as char
  }

  function Decimal(n: nat): string {
    if n < 10 then [Digit(n)] else Decimal(n / 10) + [Digit(n % 10)]
  }

  predicate IsNumber(s: string) {
    s != [] && forall i :: 0 <= i < |s| ==> '0' <= s[i] <= '9'
  }

  function NumberValue(s: string): nat
    requires forall i :: 0 <= i < |s| ==> '0' <= s[i] <= '9'
  {
    if s == [] then 0 else 10 * NumberValue(s[..|s| - 1]) + (s[|s| - 1] as int - 48)
  }

  /** Parsing a number; what is not a plain number yields zero, its error being ignored. */
  function Atoi(s: string): nat {
    if IsNumber(s) then NumberValue(s) else 0
  }

  lemma {:induction false} DecimalRoundTrip(n: nat)
    ensures IsNumber(Decimal(n)) && Atoi(Decimal(n)) == n && NoDash(Decimal(n))
  {
    if n < 10 {
      var s := Decimal(n);
      assert s[..|s| - 1] == [] && s[0] as int - 48 == n;
      assert NumberValue(s) == n;
    } else {
      DecimalRoundTrip(n / 10);
      var s, d := Decimal(n), Digit(n % 10);
      assert s[..|s| - 1] == Decimal(n / 10) && s[|s| - 1] == d;
      assert d as int - 48 == n % 10 && '0' <= d <= '9';
    }
  }

  // ---------------------------------------------------------------- printing

  function Key(q: Query): string {
    q.name + [DASH] + Decimal(q.qtype) + [DASH] + Decimal(q.qclass)
  }

  function NegativeKey(q: Query): string {
    Key(q) + "-negative"
  }

  /** What follows the last dash determines where it is. */
  lemma LastDashSplits(a: string, b: string, c: string, d: string)
    requires a + [DASH] + b == c + [DASH] + d && NoDash(b) && NoDash(d)
    ensures a == c && b == d
  {
    var s, t := a + [DASH] + b, c + [DASH] + d;
    assert s[|a|] == DASH && t[|c|] == DASH;
    assert forall i :: |a| < i < |s| ==> s[i] == b[i - |a| - 1];
    assert forall i :: |c| < i < |t| ==> t[i] == d[i - |c| - 1];
    assert |a| == |c|;
    assert a == s[..|a|] && c == t[..|c|] && b == s[|a| + 1..] && d == t[|c| + 1..];
  }

  /** The key determines the question, dashes in the name notwithstanding. */
  lemma KeyIsInjective(p: Query, q: Query)
    requires Key(p) == Key(q)
    ensures p == q
  {
    DecimalRoundTrip(p.qtype);
    DecimalRoundTrip(p.qclass);
    DecimalRoundTrip(q.qtype);
    DecimalRoundTrip(q.qclass);
    var a, c := p.name + [DASH] + Decimal(p.qtype), q.name + [DASH] + Decimal(q.qtype);
    LastDashSplits(a, Decimal(p.qclass), c, Decimal(q.qclass));
    LastDashSplits(p.name, Decimal(p.qtype), q.name, Decimal(q.qtype));
  }

  lemma NegativeKeyIsInjective(p: Query, q: Query)
    requires NegativeKey(p) == NegativeKey(q)
    ensures p == q
  {
    var n := |"-negative"|;
    assert Key(p) == NegativeKey(p)[..|NegativeKey(p)| - n] == NegativeKey(q)[..|NegativeKey(q)| - n] == Key(q);
    KeyIsInjective(p, q);
  }

  /** A positive key ends in a digit, a negative one in a letter. */
  lemma KeysNeverCollide(p: Query, q: Query)
    ensures Key(p) != NegativeKey(q)
  {
    DecimalRoundTrip(p.qclass);
    var d := Decimal(p.qclass);
    assert Key(p)[|Key(p)| - 1] == d[|d| - 1];
    assert NegativeKey(q)[|NegativeKey(q)| - 1] == 'e';
  }

  // ---------------------------------------------------------------- parsing

  /** The parts between dashes. */
  function SplitDash(s: string): (parts: seq<string>)
    ensures |parts| >= 1
  {
    if s == [] then [[]]
    else
      var rest := SplitDash(s[1..]);
      if s[0] == DASH then [[]] + rest else [[s[0]] + rest[0]] + rest[1..]
  }

  lemma {:induction false} SplitAtDash(a: string, b: string)
    ensures |SplitDash(a + [DASH] + b)| == |SplitDash(a)| + |SplitDash(b)|
    ensures NoDash(a) ==> SplitDash(a + [DASH] + b) == [a] + SplitDash(b)
  {
    var s := a + [DASH] + b;
    if a == [] {
      assert s[1..] == b;
    } else {
      SplitAtDash(a[1..], b);
      assert s[1..] == a[1..] + [DASH] + b;
      assert a == [a[0]] + a[1..];
    }
  }

  lemma {:induction false} SplitWhole(a: string)
    ensures NoDash(a) <==> |SplitDash(a)| == 1
    ensures NoDash(a) ==> SplitDash(a) == [a]
  {
    if a != [] {
      SplitWhole(a[1..]);
      assert a == [a[0]] + a[1..];
      assert NoDash(a) <==> a[0] != DASH && NoDash(a[1..]);
    }
  }

  /** A key that splits into exactly three parts is read as a question. */
  function ParseKey(key: string): Option<Query> {
    var parts := SplitDash(key);
    if |parts| == 3 then Some(Query(parts[0], Atoi(parts[1]) % 0x1_0000, Atoi(parts[2]) % 0x1_0000)) else None
  }

  lemma KeyParts(q: Query)
    ensures |SplitDash(Key(q))| == |SplitDash(q.name)| + 2
    ensures NoDash(q.name) ==> SplitDash(Key(q)) == [q.name, Decimal(q.qtype), Decimal(q.qclass)]
  {
    var t, c := Decimal(q.qtype), Decimal(q.qclass);
    DecimalRoundTrip(q.qtype);
    DecimalRoundTrip(q.qclass);
    SplitWhole(t);
    SplitWhole(c);
    SplitAtDash(t, c);
    SplitAtDash(q.name, t + [DASH] + c);
    assert Key(q) == q.name + [DASH] + (t + [DASH] + c);
  }

  lemma LongerKeyParts(q: Query, suffix: string)
    ensures |SplitDash(Key(q) + [DASH] + suffix)| > 3
  {
    KeyParts(q);
    SplitAtDash(Key(q), suffix);
  }

  /** Parsing recovers exactly the positive keys whose name has no dash, and never a negative key. */
  lemma ParseRoundTrip(q: Query)
    ensures ParseKey(Key(q)) == if NoDash(q.name) then Some(q) else None
    ensures ParseKey(NegativeKey(q)) == None
  {
    KeyParts(q);
    SplitWhole(q.name);
    DecimalRoundTrip(q.qtype);
    DecimalRoundTrip(q.qclass);
    assert NegativeKey(q) == Key(q) + [DASH] + NegativeKey(q)[|Key(q)| + 1..];
    LongerKeyParts(q, NegativeKey(q)[|Key(q)| + 1..]);
  }
}
