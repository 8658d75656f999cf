/**
 Denial of existence with NSEC3 records (dnssec/doe/nsec3.go, dnssec/doe/doe.go), and what its
 closest-encloser proofs establish about a zone with a genuine NSEC3 chain (section 8 of RFC 5155).
 */
module Nsec3 {
  import opened Collections
  import opened Names
  import opened Records

  predicate AllNsec3(records: seq<RR>) {
    forall i :: 0 <= i < |records| ==> records[i].data.Nsec3Data?
  }

  /** Records with an unknown hash algorithm or unknown flags are ignored. */
  predicate Usable(r: RR) {
    r.data.Nsec3Data? && r.data.hashAlgorithm == HASH_SHA1 && r.data.flags <= 1
  }

  function UsableOf(records: seq<RR>): (r: seq<RR>)
    ensures AllNsec3(r)
  {
    var u := Filter(records, Usable);
    assert forall i :: 0 <= i < |u| ==> u[i] in u;
    u
  }

  method NewDenialOfExistence(records: seq<RR>) returns (checked: seq<RR>)
    requires AllNsec3(records)
    ensures checked == UsableOf(records)
  {
    checked := [];
    for i := 0 to |records|
      invariant checked == Filter(records[..i], Usable)
    {
      FilterStep(records, i, Usable);
      if records[i].data.hashAlgorithm != HASH_SHA1 {
        continue;
      }
      if records[i].data.flags > 1 {
        continue;
      }
      checked := checked + [records[i]];
    }
    assert records[..|records|] == records;
  }

  predicate AnyMatch(o: Oracle, records: seq<RR>, n: Name) {
    exists i :: 0 <= i < |records| && o.nsec3Match(records[i], n)
  }

  predicate AnyCover(o: Oracle, records: seq<RR>, n: Name) {
    exists i :: 0 <= i < |records| && o.nsec3Cover(records[i], n)
  }

  predicate AnyOptOutCover(o: Oracle, records: seq<RR>, n: Name)
    requires AllNsec3(records)
  {
    exists i :: 0 <= i < |records| && o.nsec3Cover(records[i], n) && records[i].data.flags == 1
  }

  /** Covered, and matched by no record. */
  predicate CoveredOnly(o: Oracle, records: seq<RR>, n: Name) {
    AnyCover(o, records, n) && !AnyMatch(o, records, n)
  }

  predicate TypeSeen(o: Oracle, records: seq<RR>, n: Name, types: seq<TypeCode>)
    requires AllNsec3(records)
  {
    exists i, k :: 0 <= i < |records| && 0 <= k < |types| && o.nsec3Match(records[i], n)
                   && types[k] in records[i].data.nsec3Types
  }

  method VerifyWildcardCovered(o: Oracle, records: seq<RR>, encloser: Name) returns (proof: bool)
    ensures proof <==> CoveredOnly(o, records, encloser + [ASTERISK])
  {
    var wildcard := encloser + [ASTERISK];
    proof := false;
    for i := 0 to |records|
      invariant forall j :: 0 <= j < i ==> !o.nsec3Match(records[j], wildcard)
      invariant proof <==> exists j :: 0 <= j < i && o.nsec3Cover(records[j], wildcard)
    {
      if o.nsec3Match(records[i], wildcard) {
        return false;
      }
      if o.nsec3Cover(records[i], wildcard) {
        proof := true;
      }
    }
  }

  method VerifyNextCloserNameCovered(o: Oracle, records: seq<RR>, nextCloser: Name) returns (optedOut: bool, proof: bool)
    requires AllNsec3(records)
    ensures proof <==> CoveredOnly(o, records, nextCloser)
    ensures optedOut <==> proof && AnyOptOutCover(o, records, nextCloser)
  {
    optedOut, proof := false, false;
    for i := 0 to |records|
      invariant forall j :: 0 <= j < i ==> !o.nsec3Match(records[j], nextCloser)
      invariant proof <==> exists j :: 0 <= j < i && o.nsec3Cover(records[j], nextCloser)
      invariant optedOut <==> exists j :: 0 <= j < i && o.nsec3Cover(records[j], nextCloser) && records[j].data.flags == 1
    {
      if o.nsec3Match(records[i], nextCloser) {
        return false, false;
      }
      if o.nsec3Cover(records[i], nextCloser) {
        proof := true;
        optedOut := optedOut || records[i].data.flags == 1;
      }
    }
  }

  method TypeBitMapContainsAnyOf(o: Oracle, records: seq<RR>, n: Name, types: seq<TypeCode>)
    returns (nameSeen: bool, typeSeen: bool)
    requires AllNsec3(records)
    ensures nameSeen <==> AnyMatch(o, records, n)
    ensures typeSeen <==> TypeSeen(o, records, n, types)
  {
    nameSeen, typeSeen := false, false;
    for i := 0 to |records|
      invariant nameSeen <==> exists j :: 0 <= j < i && o.nsec3Match(records[j], n)
      invariant forall j, k :: 0 <= j < i && 0 <= k < |types| && o.nsec3Match(records[j], n) ==>
                  types[k] !in records[j].data.nsec3Types
    {
      if !o.nsec3Match(records[i], n) {
        continue;
      }
      nameSeen := true;
      for k := 0 to |types|
        invariant forall m :: 0 <= m < k ==> types[m] !in records[i].data.nsec3Types
      {
        if types[k] in records[i].data.nsec3Types {
          return true, true;
        }
      }
    }
  }

  // ---------------------------------------------------------------- the closest encloser

  /** Section 8.3 of RFC 5155: no DNAME, and NS only together with SOA. */
  predicate Eligible(r: RR)
    requires r.data.Nsec3Data?
  {
    TYPE_DNAME !in r.data.nsec3Types && (TYPE_NS in r.data.nsec3Types ==> TYPE_SOA in r.data.nsec3Types)
  }

  /** Record `r` vouches for the ancestor of `qname` that has `k` labels. */
  predicate Vouches(o: Oracle, zone: Name, r: RR, qname: Name, k: nat)
    requires r.data.Nsec3Data?
  {
    1 <= k <= |qname| && IsSubDomain(zone, qname[..k]) && Eligible(r) && o.nsec3Match(r, qname[..k])
  }

  predicate Vouched(o: Oracle, zone: Name, records: seq<RR>, qname: Name, k: nat)
    requires AllNsec3(records)
  {
    exists i :: 0 <= i < |records| && Vouches(o, zone, records[i], qname, k)
  }

  /** The largest vouched-for number of labels not above `k`; zero if there is none. */
  function EncloserDepth(o: Oracle, zone: Name, records: seq<RR>, qname: Name, k: nat): (d: nat)
    requires AllNsec3(records)
    ensures d <= k
    ensures d > 0 ==> Vouched(o, zone, records, qname, d)
    ensures forall m :: d < m <= k ==> !Vouched(o, zone, records, qname, m)
  {
    if k == 0 || Vouched(o, zone, records, qname, k) then k
    else EncloserDepth(o, zone, records, qname, k - 1)
  }

  function ClosestEncloserDepth(o: Oracle, zone: Name, records: seq<RR>, qname: Name): (d: nat)
    requires AllNsec3(records)
    ensures d <= |qname|
  {
    EncloserDepth(o, zone, records, qname, |qname|)
  }

  /** The encloser plus one label of `qname`, or `qname` itself when they coincide. */
  function NextCloser(qname: Name, depth: nat): Name
    requires depth <= |qname|
  {
    if depth == |qname| then qname else qname[..depth + 1]
  }

  /** Length of the presentation text, every label followed by a dot. */
  function TextLength(n: Name): nat {
    if n == [] then 0 else TextLength(n[..|n| - 1]) + |n[|n| - 1]| + 1
  }

  lemma {:induction false} LongerTextMoreLabels(n: Name, j: nat, k: nat)
    requires j < k <= |n|
    ensures TextLength(n[..j]) < TextLength(n[..k])
  {
    assert n[..k][..k - 1] == n[..k - 1];
    if j < k - 1 {
      LongerTextMoreLabels(n, j, k - 1);
    }
  }

  lemma InZoneIsMonotone(zone: Name, qname: Name, j: nat, k: nat)
    requires j <= k <= |qname| && IsSubDomain(zone, qname[..j])
    ensures IsSubDomain(zone, qname[..k])
  {
    CanonicalTake(qname, j);
    CanonicalTake(qname, k);
    assert Canonical(qname)[..j] <= Canonical(qname)[..k];
  }

  /** The inner loop of the search: what one record contributes, by number of labels. */
  method Contender(o: Oracle, zone: Name, r: RR, qname: Name) returns (depth: nat, nextDepth: nat)
    requires r.data.Nsec3Data?
    ensures depth > 0 ==> Vouches(o, zone, r, qname, depth)
    ensures depth > 0 ==> depth <= |qname| && nextDepth == if depth == |qname| then depth else depth + 1
    ensures forall m :: depth < m ==> !Vouches(o, zone, r, qname, m)
  {
    var last := |qname|;
    var k := |qname|;
    while k > 0
      invariant 0 <= k <= |qname|
      invariant forall m :: k < m ==> !Vouches(o, zone, r, qname, m)
      invariant Eligible(r) ==> last == if k == |qname| then k else k + 1
    {
      var name := qname[..k];
      if !IsSubDomain(zone, name) {
        forall m | 0 < m <= k
          ensures !Vouches(o, zone, r, qname, m)
        {
          if IsSubDomain(zone, qname[..m]) {
            InZoneIsMonotone(zone, qname, m, k);
          }
        }
        return 0, 0;
      }
      if o.nsec3Match(r, name) {
        if TYPE_DNAME !in r.data.nsec3Types
           && !(TYPE_NS in r.data.nsec3Types && TYPE_SOA !in r.data.nsec3Types) {
          return k, last;
        }
      } else {
        last := k;
      }
      k := k - 1;
    }
    return 0, 0;
  }

  /** The contender with the longest name, compared by text length. */
  method Longest(qname: Name, contenders: seq<(nat, nat)>) returns (best: (nat, nat))
    requires |contenders| > 0 && forall c :: c in contenders ==> c.0 <= |qname|
    ensures best in contenders && forall c :: c in contenders ==> c.0 <= best.0
  {
    best := contenders[0];
    for i := 1 to |contenders|
      invariant best in contenders
      invariant forall c :: 0 <= c < i ==> contenders[c].0 <= best.0
    {
      assert contenders[i] in contenders;
      if contenders[i].0 < best.0 {
        LongerTextMoreLabels(qname, contenders[i].0, best.0);
      } else if best.0 < contenders[i].0 {
        LongerTextMoreLabels(qname, best.0, contenders[i].0);
      }
      if TextLength(qname[..contenders[i].0]) > TextLength(qname[..best.0]) {
        best := contenders[i];
      }
    }
  }

  /** Every contender lies within `depth` and carries its next-closer depth. */
  ghost predicate Bounded(qname: Name, contenders: seq<(nat, nat)>, depth: nat) {
    forall c :: c in contenders ==>
      0 < c.0 <= |qname| && c.0 <= depth && c.1 == if c.0 == |qname| then |qname| else c.0 + 1
  }

  lemma VouchedIsBounded(o: Oracle, zone: Name, records: seq<RR>, qname: Name, i: nat, k: nat)
    requires AllNsec3(records) && i < |records| && Vouches(o, zone, records[i], qname, k)
    ensures k <= ClosestEncloserDepth(o, zone, records, qname)
  {
    assert Vouched(o, zone, records, qname, k);
  }

  /** No ancestor vouched for by the first `i` records is longer than every contender. */
  ghost predicate Complete(o: Oracle, zone: Name, records: seq<RR>, qname: Name, i: nat, contenders: seq<(nat, nat)>)
    requires AllNsec3(records) && i <= |records|
  {
    forall j, k :: 0 <= j < i && Vouches(o, zone, records[j], qname, k) ==>
      exists c :: c in contenders && c.0 >= k
  }

  lemma VouchedIsReached(o: Oracle, zone: Name, records: seq<RR>, qname: Name, contenders: seq<(nat, nat)>, k: nat)
    requires AllNsec3(records) && Complete(o, zone, records, qname, |records|, contenders)
    requires Vouched(o, zone, records, qname, k)
    ensures exists c :: c in contenders && c.0 >= k
  {
    var j :| 0 <= j < |records| && Vouches(o, zone, records[j], qname, k);
  }

  lemma DepthIffVouched(o: Oracle, zone: Name, records: seq<RR>, qname: Name)
    requires AllNsec3(records)
    ensures ClosestEncloserDepth(o, zone, records, qname) > 0 <==> exists k: nat :: Vouched(o, zone, records, qname, k)
  {
    var d := ClosestEncloserDepth(o, zone, records, qname);
    forall k: nat | Vouched(o, zone, records, qname, k)
      ensures d > 0
    {
      assert 1 <= k <= |qname|;
    }
  }

  /** One contender for every record that has one; the greatest is the encloser's depth. */
  method Contenders(o: Oracle, zone: Name, records: seq<RR>, qname: Name) returns (contenders: seq<(nat, nat)>)
    requires AllNsec3(records)
    ensures var d := ClosestEncloserDepth(o, zone, records, qname);
      Bounded(qname, contenders, d) && (d > 0 ==> exists c :: c in contenders && c.0 == d)
  {
    ghost var d := ClosestEncloserDepth(o, zone, records, qname);
    contenders := [];
    for i := 0 to |records|
      invariant Bounded(qname, contenders, d)
      invariant Complete(o, zone, records, qname, i, contenders)
    {
      var depth, nextDepth := Contender(o, zone, records[i], qname);
      ghost var before := contenders;
      if depth > 0 {
        VouchedIsBounded(o, zone, records, qname, i, depth);
        contenders := contenders + [(depth, nextDepth)];
        assert contenders[|before|] == (depth, nextDepth);
      }
      assert forall c :: c in before ==> c in contenders;
    }
    if d > 0 {
      VouchedIsReached(o, zone, records, qname, contenders, d);
    }
  }

  /**
   Succeeds exactly when some eligible record matches an in-zone ancestor with at least one
   label, and then returns the longest such ancestor, whatever the order of the records.
   */
  method FindClosestEncloser(o: Oracle, zone: Name, records: seq<RR>, qname: Name)
    returns (encloser: Name, nextCloser: Name, ok: bool)
    requires AllNsec3(records)
    ensures ok <==> exists k: nat :: Vouched(o, zone, records, qname, k)
    ensures ok <==> ClosestEncloserDepth(o, zone, records, qname) > 0
    ensures var d := ClosestEncloserDepth(o, zone, records, qname);
      ok ==> encloser == qname[..d] && nextCloser == NextCloser(qname, d)
  {
    DepthIffVouched(o, zone, records, qname);
    var contenders := Contenders(o, zone, records, qname);
    if |contenders| == 0 {
      return [], [], false;
    }
    var best := Longest(qname, contenders);
    return qname[..best.0], qname[..best.1], true;
  }

  // ---------------------------------------------------------------- closest-encloser proofs

  datatype EncloserProof = EncloserProof(optedOut: bool, encloser: bool, nextCloser: bool, wildcard: bool)

  function ClosestEncloserProof(o: Oracle, zone: Name, records: seq<RR>, name: Name): EncloserProof
    requires AllNsec3(records)
  {
    var d := ClosestEncloserDepth(o, zone, records, name);
    if d == 0 then EncloserProof(false, false, false, false)
    else
      var next := CoveredOnly(o, records, NextCloser(name, d));
      EncloserProof(next && AnyOptOutCover(o, records, NextCloser(name, d)), true, next,
                    CoveredOnly(o, records, name[..d] + [ASTERISK]))
  }

  method PerformClosestEncloserProof(o: Oracle, zone: Name, records: seq<RR>, name: Name) returns (p: EncloserProof)
    requires AllNsec3(records)
    ensures p == ClosestEncloserProof(o, zone, records, name)
  {
    if |records| == 0 {
      return EncloserProof(false, false, false, false);
    }
    var encloser, nextCloser, ok := FindClosestEncloser(o, zone, records, name);
    if !ok {
      return EncloserProof(false, false, false, false);
    }
    var wildcard := VerifyWildcardCovered(o, records, encloser);
    var optedOut, next := VerifyNextCloserNameCovered(o, records, nextCloser);
    return EncloserProof(optedOut, true, next, wildcard);
  }

  /**
   The proof that a wildcard answer was rightly expanded: the next-closer name of the wildcard's
   parent is covered, and nothing denies (or matches) the wildcard itself.
   */
  predicate ExpandedWildcardProof(o: Oracle, records: seq<RR>, owner: Name, sigLabels: nat) {
    1 <= sigLabels < |owner|
    && CoveredOnly(o, records, owner[..sigLabels + 1])
    && !AnyCover(o, records, owner[..sigLabels] + [ASTERISK])
    && !AnyMatch(o, records, owner[..sigLabels] + [ASTERISK])
  }

  /** `None` stands for the index out of range that a label count of zero leads to. */
  method PerformExpandedWildcardProof(o: Oracle, records: seq<RR>, owner: Name, sigLabels: nat) returns (ok: Option<bool>)
    requires AllNsec3(records)
    requires sigLabels < |owner|
    ensures ok.None? <==> sigLabels == 0
    ensures ok.Some? ==> (ok.value <==> ExpandedWildcardProof(o, records, owner, sigLabels))
  {
    if sigLabels == 0 {
      return None;
    }
    var encloser := owner[..sigLabels];
    var covered := VerifyWildcardCovered(o, records, encloser);
    var matched := VerifyWildcardMatched(o, records, encloser);
    var _, next := VerifyNextCloserNameCovered(o, records, owner[..sigLabels + 1]);
    ok := Some(!(covered || matched) && next);
  }

  method VerifyWildcardMatched(o: Oracle, records: seq<RR>, encloser: Name) returns (matched: bool)
    ensures matched <==> AnyMatch(o, records, encloser + [ASTERISK])
  {
    for i := 0 to |records|
      invariant forall j :: 0 <= j < i ==> !o.nsec3Match(records[j], encloser + [ASTERISK])
    {
      if o.nsec3Match(records[i], encloser + [ASTERISK]) {
        return true;
      }
    }
    return false;
  }

  // ---------------------------------------------------------------- genuine chains

  /** Strictly inside the circular interval of hashes that starts at `a` and ends at `b`. */
  predicate Between(a: nat, x: nat, b: nat) {
    if a < b then a < x < b else x > a || x < b
  }

  /**
   A zone signed with NSEC3: the (canonical) names its chain lists, their types, and the hash.
   Without opt-out the chain lists every name that exists, empty non-terminals included.
   */
  datatype Nsec3Zone = Nsec3Zone(apex: Name, names: set<Name>, types: map<Name, seq<TypeCode>>, hash: Name -> nat) {

    ghost predicate Genuine() {
      && Canonical(apex) in names && names <= types.Keys
      && (forall n :: n in names ==> Canonical(n) == n && IsSubDomain(apex, n))
      && (forall n, k :: n in names && |apex| <= k <= |n| ==> n[..k] in names)
      && (forall a, b :: hash(a) == hash(b) ==> a == b)
    }

    /** `rec` is the chain's record for `owner`. */
    ghost predicate RecordFor(owner: Name, rec: RR) {
      && rec.data.Nsec3Data? && owner in names && owner in types
      && rec.data.ownerHash == hash(owner) && rec.data.nsec3Types == types[owner]
      && forall n :: n in names ==> !Between(rec.data.ownerHash, hash(n), rec.data.nextHash)
    }

    /** What the library's matching and covering tests mean (section 1.3 of RFC 5155). */
    ghost predicate Interprets(o: Oracle, rec: RR)
      requires rec.data.Nsec3Data?
    {
      && (forall n :: o.nsec3Match(rec, n) <==> IsSubDomain(apex, n) && hash(Canonical(n)) == rec.data.ownerHash)
      && (forall n :: o.nsec3Cover(rec, n) ==>
            hash(Canonical(n)) == rec.data.ownerHash
            || Between(rec.data.ownerHash, hash(Canonical(n)), rec.data.nextHash))
    }

    ghost predicate Supplies(o: Oracle, records: seq<RR>) {
      forall r :: r in records ==> (exists owner :: RecordFor(owner, r)) && Interprets(o, r)
    }
  }

  lemma MatchedExists(z: Nsec3Zone, o: Oracle, records: seq<RR>, n: Name, i: nat)
    requires z.Genuine() && z.Supplies(o, records)
    requires i < |records| && o.nsec3Match(records[i], n)
    ensures Canonical(n) in z.names && records[i].data.Nsec3Data?
    ensures records[i].data.nsec3Types == z.types[Canonical(n)]
  {
    assert records[i] in records;
    var owner :| z.RecordFor(owner, records[i]);
  }

  lemma CoveredOnlyIsAbsent(z: Nsec3Zone, o: Oracle, records: seq<RR>, n: Name)
    requires z.Genuine() && z.Supplies(o, records) && IsSubDomain(z.apex, n)
    requires CoveredOnly(o, records, n)
    ensures Canonical(n) !in z.names
  {
    var i :| 0 <= i < |records| && o.nsec3Cover(records[i], n);
    assert records[i] in records && !o.nsec3Match(records[i], n);
    var owner :| z.RecordFor(owner, records[i]);
  }

  /** The found encloser, with its next-closer name denied, is the true closest encloser. */
  lemma EncloserIsTrueClosest(z: Nsec3Zone, o: Oracle, zone: Name, records: seq<RR>, qname: Name)
    requires z.Genuine() && z.Supplies(o, records) && NamesEqual(zone, z.apex) && AllNsec3(records)
    requires var p := ClosestEncloserProof(o, zone, records, qname); p.encloser && p.nextCloser
    ensures var d := ClosestEncloserDepth(o, zone, records, qname);
      && 0 < d < |qname|
      && Canonical(qname)[..d] in z.names
      && (forall m :: d < m <= |qname| ==> Canonical(qname)[..m] !in z.names)
      && IsSubDomain(z.apex, qname[..d])
  {
    var d := ClosestEncloserDepth(o, zone, records, qname);
    var q := Canonical(qname);
    var i :| 0 <= i < |records| && Vouches(o, zone, records[i], qname, d);
    MatchedExists(z, o, records, qname[..d], i);
    CanonicalTake(qname, d);
    assert AnyMatch(o, records, qname[..d]) && qname[..|qname|] == qname;
    InZoneIsMonotone(z.apex, qname, d, d + 1);
    CoveredOnlyIsAbsent(z, o, records, qname[..d + 1]);
    CanonicalTake(qname, d + 1);
    forall m | d < m <= |qname|
      ensures q[..m] !in z.names
    {
      assert q[..m][..d + 1] == q[..d + 1] && |z.apex| <= d + 1;
    }
  }

  lemma CanonicalStar(n: Name)
    ensures Canonical(n + [ASTERISK]) == Canonical(n) + [ASTERISK]
  {
    assert LowerLabel(ASTERISK) == ASTERISK;
  }

  lemma WildcardInZone(apex: Name, n: Name)
    requires IsSubDomain(apex, n)
    ensures IsSubDomain(apex, n + [ASTERISK])
  {
    CanonicalStar(n);
  }

  /** The wildcard is absent, or listed without any of the types. */
  ghost predicate WildcardLacks(z: Nsec3Zone, encloser: Name, types: seq<TypeCode>) {
    var w := Canonical(encloser) + [ASTERISK];
    w in z.names ==> w in z.types && forall t :: t in types ==> t !in z.types[w]
  }

  lemma WildcardCoveredLacks(z: Nsec3Zone, o: Oracle, records: seq<RR>, encloser: Name, types: seq<TypeCode>)
    requires z.Genuine() && z.Supplies(o, records) && IsSubDomain(z.apex, encloser)
    requires CoveredOnly(o, records, encloser + [ASTERISK])
    ensures WildcardLacks(z, encloser, types)
  {
    WildcardInZone(z.apex, encloser);
    CanonicalStar(encloser);
    CoveredOnlyIsAbsent(z, o, records, encloser + [ASTERISK]);
  }

  /** A match without the type bits: the name is listed and has none of the types. */
  lemma NoDataIsSound(z: Nsec3Zone, o: Oracle, records: seq<RR>, n: Name, types: seq<TypeCode>)
    requires z.Genuine() && z.Supplies(o, records) && AllNsec3(records)
    requires AnyMatch(o, records, n) && !TypeSeen(o, records, n, types)
    ensures Canonical(n) in z.names && forall t :: t in types ==> t !in z.types[Canonical(n)]
  {
    var i :| 0 <= i < |records| && o.nsec3Match(records[i], n);
    MatchedExists(z, o, records, n, i);
    forall t | t in types
      ensures t !in z.types[Canonical(n)]
    {
      var k :| 0 <= k < |types| && types[k] == t;
    }
  }
}
