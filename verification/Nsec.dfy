/**
 Denial of existence with NSEC records (dnssec/doe/nsec.go), and what it proves about a zone
 whose records were taken from a genuine NSEC chain.
 */
module Nsec {
  import opened Collections
  import opened Names
  import opened Records
  import opened CanonicalOrder

  predicate AllNsec(records: seq<RR>) {
    forall r :: r in records ==> r.data.NsecData?
  }

  /** The name with its first label replaced by "*"; "*." for the root. */
  function WildcardOf(n: Name): Name {
    if n == [] then [ASTERISK] else n[..|n| - 1] + [ASTERISK]
  }

  /** `n` sorts strictly between the record's owner and its next name, the apex closing the chain. */
  predicate Covers(zone: Name, rec: RR, n: Name)
    requires rec.data.NsecData?
  {
    && CanonicalCmp(rec.owner, n) < 0
    && (Canonical(rec.data.nextDomain) == zone || CanonicalCmp(n, rec.data.nextDomain) < 0)
  }

  predicate Covered(zone: Name, records: seq<RR>, n: Name)
    requires AllNsec(records)
  {
    exists r :: r in records && Covers(zone, r, n)
  }

  predicate NameDoesNotExistProof(zone: Name, records: seq<RR>, qname: Name)
    requires AllNsec(records)
  {
    records != [] && Covered(zone, records, Canonical(qname)) && Covered(zone, records, WildcardOf(Canonical(qname)))
  }

  predicate ExpandedWildcardProof(zone: Name, records: seq<RR>, qname: Name)
    requires AllNsec(records)
  {
    records != [] && Covered(zone, records, Canonical(qname)) && !Covered(zone, records, WildcardOf(Canonical(qname)))
  }

  predicate NameSeen(records: seq<RR>, name: Name) {
    exists r :: r in records && name == Canonical(r.owner)
  }

  predicate TypeSeen(records: seq<RR>, name: Name, types: seq<TypeCode>)
    requires AllNsec(records)
  {
    exists r, t :: r in records && name == Canonical(r.owner) && t in types && t in r.data.nsecTypes
  }

  /** The test the search makes for one record. */
  method RecordCovers(zone: Name, rec: RR, n: Name) returns (covers: bool)
    requires rec.data.NsecData?
    ensures covers <==> Covers(zone, rec, n)
  {
    var afterOwner := CompareNames(rec.owner, n);
    var beforeNext := CompareNames(n, rec.data.nextDomain);
    covers := afterOwner < 0 && (Canonical(rec.data.nextDomain) == zone || beforeNext < 0);
  }

  method VerifyCovered(zone: Name, records: seq<RR>, n: Name) returns (covered: bool)
    requires AllNsec(records)
    ensures covered <==> Covered(zone, records, n)
  {
    covered := false;
    for i := 0 to |records|
      invariant !covered && AllNsec(records[..i]) && !Covered(zone, records[..i], n)
    {
      CoveredStep(zone, records, n, i);
      covered := RecordCovers(zone, records[i], n);
      if covered {
        return;
      }
    }
    assert records[..|records|] == records;
  }

  lemma CoveredStep(zone: Name, records: seq<RR>, n: Name, i: nat)
    requires AllNsec(records) && i < |records|
    ensures records[i].data.NsecData? && AllNsec(records[..i]) && AllNsec(records[..i + 1])
    ensures Covered(zone, records[..i + 1], n) <==> Covered(zone, records[..i], n) || Covers(zone, records[i], n)
    ensures Covered(zone, records[..i + 1], n) ==> Covered(zone, records, n)
  {
    assert records[..i + 1] == records[..i] + [records[i]];
    assert records[i] in records;
  }

  method PerformQNameDoesNotExistProof(zone: Name, records: seq<RR>, qname: Name) returns (ok: bool)
    requires AllNsec(records)
    ensures ok <==> NameDoesNotExistProof(zone, records, qname)
  {
    var q := VerifyCovered(zone, records, Canonical(qname));
    var w := VerifyCovered(zone, records, WildcardOf(Canonical(qname)));
    ok := |records| != 0 && q && w;
  }

  method PerformExpandedWildcardProof(zone: Name, records: seq<RR>, qname: Name) returns (ok: bool)
    requires AllNsec(records)
    ensures ok <==> ExpandedWildcardProof(zone, records, qname)
  {
    var q := VerifyCovered(zone, records, Canonical(qname));
    var w := VerifyCovered(zone, records, WildcardOf(Canonical(qname)));
    ok := |records| != 0 && q && !w;
  }

  method TypeBitMapContainsAnyOf(records: seq<RR>, name: Name, types: seq<TypeCode>)
    returns (nameSeen: bool, typeSeen: bool)
    requires AllNsec(records)
    ensures nameSeen <==> NameSeen(records, name)
    ensures typeSeen <==> TypeSeen(records, name, types)
  {
    nameSeen, typeSeen := false, false;
    for i := 0 to |records|
      invariant nameSeen <==> exists j :: 0 <= j < i && name == Canonical(records[j].owner)
      invariant forall j, t :: 0 <= j < i && name == Canonical(records[j].owner) && t in types ==>
                  t !in records[j].data.nsecTypes
    {
      assert records[i] in records;
      if name != Canonical(records[i].owner) {
        continue;
      }
      nameSeen := true;
      for k := 0 to |types|
        invariant forall m :: 0 <= m < k ==> types[m] !in records[i].data.nsecTypes
      {
        if types[k] in records[i].data.nsecTypes {
          assert records[i] in records && name == Canonical(records[i].owner) && types[k] in types;
          return true, true;
        }
      }
    }
  }

  // ---------------------------------------------------------------- genuine chains

  /** The NSEC chain of a zone: its owner names, the apex first, with their types. */
  datatype NsecZone = NsecZone(apex: Name, owners: seq<Name>, types: seq<seq<TypeCode>>) {

    /** The owners are in the canonical order of section 6.1 of RFC 4034: by octets, as they are sent. */
    ghost predicate Genuine() {
      && |owners| == |types| > 0
      && NamesEqual(owners[0], apex)
      && (forall i :: 0 <= i < |owners| ==> ProperName(owners[i]))
      && forall i, j :: 0 <= i < j < |owners| ==> OctetOrder(owners[i], owners[j]) < 0
    }

    /** No owner is spelled in a way the code misreads. */
    ghost predicate Faithful() {
      forall i :: 0 <= i < |owners| ==> FaithfulName(owners[i])
    }

    ghost predicate Readable() {
      Genuine() && Faithful()
    }

    /** The owners are in the order the code has of names. */
    ghost predicate SortedByCode() {
      && |owners| == |types| > 0
      && NamesEqual(owners[0], apex)
      && forall i, j :: 0 <= i < j < |owners| ==> CanonicalCmp(owners[i], owners[j]) < 0
    }

    /** The record at place `i`; the last one points back to the apex. */
    ghost predicate RecordAt(i: nat, rec: RR)
      requires |owners| == |types|
    {
      && i < |owners| && rec.data.NsecData?
      && NamesEqual(rec.owner, owners[i])
      && NamesEqual(rec.data.nextDomain, owners[if i + 1 == |owners| then 0 else i + 1])
      && rec.data.nsecTypes == types[i]
    }

    ghost predicate Contains(rec: RR)
      requires |owners| == |types|
    {
      exists i: nat :: RecordAt(i, rec)
    }

    /** The name owns records. */
    ghost predicate IsOwner(n: Name) {
      exists j :: 0 <= j < |owners| && OctetOrder(owners[j], n) == 0
    }

    /** An owner name, or an empty non-terminal above one. */
    ghost predicate Exists(n: Name) {
      exists j :: 0 <= j < |owners| && OctetUnder(n, owners[j])
    }
  }

  /** A chain with faithful owners is in canonical order exactly when the code finds it sorted. */
  lemma GenuineIffSorted(z: NsecZone)
    requires z.Faithful()
    ensures z.Genuine() <==> z.SortedByCode()
  {
    forall i | 0 <= i < |z.owners|
      ensures ProperName(z.owners[i])
    {
      FaithfulNameIsProper(z.owners[i]);
    }
    forall i, j | 0 <= i < j < |z.owners|
      ensures OctetOrder(z.owners[i], z.owners[j]) == CanonicalCmp(z.owners[i], z.owners[j])
    {
      CanonicalCmpIsOctetOrder(z.owners[i], z.owners[j]);
    }
  }

  /** `n` sorts, by the code, after the owner at `i` and before the next one. */
  ghost predicate FitsAfter(z: NsecZone, n: Name, i: nat) {
    && i < |z.owners| && CanonicalCmp(z.owners[i], n) < 0
    && (i + 1 < |z.owners| ==> CanonicalCmp(n, z.owners[i + 1]) < 0)
  }

  lemma CoveringFits(z: NsecZone, zone: Name, i: nat, rec: RR, n: Name)
    requires z.SortedByCode() && NamesEqual(zone, z.apex) && z.RecordAt(i, rec)
    requires Covers(zone, rec, n)
    ensures FitsAfter(z, n, i)
  {
    EqualNamesCompareAlike(rec.owner, z.owners[i], n);
    if i + 1 < |z.owners| {
      var next := z.owners[i + 1];
      CanonicalCmpIsTotalPreorder(z.owners[0], next, n);
      CanonicalIdempotent(rec.data.nextDomain);
      if NamesEqual(next, z.owners[0]) {
        EqualNamesCompareAlike(next, z.owners[0], next);
      }
      EqualNamesCompareAlike(rec.data.nextDomain, next, n);
    }
  }

  lemma NoOwnerBetween(z: NsecZone, n: Name, i: nat, j: nat)
    requires z.SortedByCode() && FitsAfter(z, n, i) && j < |z.owners|
    ensures if j <= i then CanonicalCmp(z.owners[j], n) < 0 else CanonicalCmp(n, z.owners[j]) < 0
    ensures CanonicalCmp(z.owners[j], n) != 0
  {
    CanonicalCmpIsTotalPreorder(z.owners[j], z.owners[i], n);
    if j > i {
      CanonicalCmpIsTotalPreorder(n, z.owners[i + 1], z.owners[j]);
      CanonicalCmpIsTotalPreorder(n, z.owners[j], n);
    }
  }

  /** Where the code finds a faithful name among the owners is where it belongs. */
  lemma FitsAmongOwners(z: NsecZone, n: Name, i: nat, j: nat)
    requires z.Readable() && FaithfulName(n) && FitsAfter(z, n, i) && j < |z.owners|
    ensures if j <= i then OctetOrder(z.owners[j], n) < 0 else OctetOrder(n, z.owners[j]) < 0
    ensures OctetOrder(z.owners[j], n) != 0
  {
    GenuineIffSorted(z);
    NoOwnerBetween(z, n, i, j);
    CanonicalCmpIsOctetOrder(z.owners[j], n);
    CanonicalCmpIsOctetOrder(n, z.owners[j]);
  }

  /** A covering record of the chain sits between consecutive owners, so nothing it covers is one. */
  lemma CoveringIsBetween(z: NsecZone, zone: Name, i: nat, rec: RR, n: Name)
    requires z.Readable() && NamesEqual(zone, z.apex) && z.RecordAt(i, rec)
    requires FaithfulName(n) && Covers(zone, rec, n)
    ensures FitsAfter(z, n, i) && !z.IsOwner(n)
    ensures forall j :: 0 <= j < |z.owners| ==> if j <= i then OctetOrder(z.owners[j], n) < 0 else OctetOrder(n, z.owners[j]) < 0
  {
    GenuineIffSorted(z);
    CoveringFits(z, zone, i, rec, n);
    forall j | 0 <= j < |z.owners|
      ensures if j <= i then OctetOrder(z.owners[j], n) < 0 else OctetOrder(n, z.owners[j]) < 0
      ensures OctetOrder(z.owners[j], n) != 0
    {
      FitsAmongOwners(z, n, i, j);
    }
  }

  lemma CanonicalWildcard(n: Name)
    ensures WildcardOf(Canonical(n)) == Canonical(WildcardOf(n))
  {
    assert LowerLabel(ASTERISK) == ASTERISK;
  }

  lemma FaithfulWildcard(n: Name)
    requires FaithfulName(n)
    ensures FaithfulName(WildcardOf(n)) && FaithfulName(n + [ASTERISK])
  {
    assert Faithful(ASTERISK, 1) && Faithful(ASTERISK, 0);
  }

  lemma CoversIgnoresCase(zone: Name, rec: RR, n: Name)
    requires rec.data.NsecData?
    ensures Covers(zone, rec, Canonical(n)) <==> Covers(zone, rec, n)
  {
    CanonicalIdempotent(n);
    EqualNamesCompareAlike(Canonical(n), n, rec.owner);
    EqualNamesCompareAlike(Canonical(n), n, rec.data.nextDomain);
  }

  lemma CoveredOwnsNothing(z: NsecZone, zone: Name, records: seq<RR>, n: Name)
    requires z.Readable() && NamesEqual(zone, z.apex) && AllNsec(records)
    requires forall r :: r in records ==> z.Contains(r)
    requires FaithfulName(n) && Covered(zone, records, Canonical(n))
    ensures !z.IsOwner(n)
  {
    var r :| r in records && Covers(zone, r, Canonical(n));
    CoversIgnoresCase(zone, r, n);
    var i: nat :| z.RecordAt(i, r);
    CoveringIsBetween(z, zone, i, r, n);
  }

  /** A name-error proof over genuine records: neither the name nor its sibling wildcard is an owner. */
  lemma NameErrorIsSound(z: NsecZone, zone: Name, records: seq<RR>, qname: Name)
    requires z.Readable() && NamesEqual(zone, z.apex) && AllNsec(records)
    requires forall r :: r in records ==> z.Contains(r)
    requires FaithfulName(qname) && NameDoesNotExistProof(zone, records, qname)
    ensures !z.IsOwner(qname) && !z.IsOwner(WildcardOf(qname))
  {
    CanonicalWildcard(qname);
    FaithfulWildcard(qname);
    CoveredOwnsNothing(z, zone, records, qname);
    CoveredOwnsNothing(z, zone, records, WildcardOf(qname));
  }

  lemma UnderSortsAfter(p: Name, n: Name)
    requires Under(p, n)
    ensures CanonicalCmp(p, n) <= 0
  {
    CompareBytesIsTotalOrder();
    if NameKey(p) == NameKey(n) {
      LexEqual(CompareBytes, NameKey(p), NameKey(n));
    } else {
      LexPrefixFirst(CompareBytes, NameKey(p), NameKey(n));
    }
  }

  /** What exists at or below a covered name starts with the next owner. */
  lemma NextOwnerIsUnder(z: NsecZone, n: Name, i: nat, j: nat)
    requires z.SortedByCode() && FitsAfter(z, n, i) && j < |z.owners| && Under(n, z.owners[j])
    ensures i + 1 < |z.owners| && Under(n, z.owners[i + 1])
  {
    UnderSortsAfter(n, z.owners[j]);
    NoOwnerBetween(z, n, i, j);
    CanonicalCmpIsTotalPreorder(z.owners[j], n, n);
    if j > i + 1 {
      CanonicalCmpIsTotalPreorder(n, z.owners[i + 1], z.owners[j]);
    }
    CanonicalCmpIsTotalPreorder(z.owners[i + 1], z.owners[j], n);
    CanonicalCmpIsTotalPreorder(n, n, n);
    CanonicalCmpIsTotalPreorder(z.owners[j], z.owners[j], n);
    SubtreeIsInterval(n, n, z.owners[i + 1], z.owners[j]);
  }

  /**
   Covering a name does not by itself rule out an empty non-terminal. Exactly when the covering
   record's next name is not below the covered name does the name not exist at all.
   */
  lemma CoveredNameExistsIff(z: NsecZone, zone: Name, i: nat, rec: RR, n: Name)
    requires z.Readable() && NamesEqual(zone, z.apex) && z.RecordAt(i, rec)
    requires FaithfulName(n) && Covers(zone, rec, n)
    requires OctetOrder(z.apex, n) < 0
    ensures z.Exists(n) <==> OctetUnder(n, rec.data.nextDomain)
  {
    GenuineIffSorted(z);
    CoveringFits(z, zone, i, rec, n);
    var k := if i + 1 == |z.owners| then 0 else i + 1;
    EqualNamesOnTheWire(rec.data.nextDomain, z.owners[k]);
    if j :| 0 <= j < |z.owners| && OctetUnder(n, z.owners[j]) {
      UnderIsOctetUnder(n, z.owners[j]);
      NextOwnerIsUnder(z, n, i, j);
      UnderIsOctetUnder(n, z.owners[i + 1]);
    }
  }

  /** A no-data proof over genuine records: the name is an owner and has none of the types. */
  lemma NoDataIsSound(z: NsecZone, records: seq<RR>, name: Name, types: seq<TypeCode>)
    requires z.Genuine() && AllNsec(records)
    requires forall r :: r in records ==> z.Contains(r)
    requires NameSeen(records, name) && !TypeSeen(records, name, types)
    ensures exists i :: 0 <= i < |z.owners| && NamesEqual(z.owners[i], name)
              && forall t :: t in types ==> t !in z.types[i]
  {
    var r :| r in records && name == Canonical(r.owner);
    var i: nat :| z.RecordAt(i, r);
    CanonicalIdempotent(r.owner);
    assert NamesEqual(z.owners[i], name);
    forall t | t in types
      ensures t !in z.types[i]
    {
      assert r in records && name == Canonical(r.owner) && t in types;
    }
  }
}
