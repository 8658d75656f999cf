/**
 Which denial a set of records leads to: the converse of the soundness lemmas.

 For records of a genuine chain each denial state is characterised by evidence that can be read
 off the records; and a complete NSEC chain always proves what is the case.
 */
module DenialCompleteness {
  import opened Collections
  import opened Names
  import opened Records
  import opened CanonicalOrder
  import opened Verifier
  import opened DenialExactness
  import Nsec
  import Nsec3

  // ---------------------------------------------------------------- NSEC

  /** The name is listed, and nowhere with the type or a CNAME. */
  ghost predicate ListedWithout(nsec: seq<RR>, q: Question)
    requires Nsec.AllNsec(nsec)
  {
    && (exists r :: r in nsec && Canonical(r.owner) == q.name)
    && forall r :: r in nsec && Canonical(r.owner) == q.name ==> q.qtype !in r.data.nsecTypes && TYPE_CNAME !in r.data.nsecTypes
  }

  /** One record covers the name and one, perhaps the same, its sibling wildcard. */
  ghost predicate BothCovered(zone: Name, nsec: seq<RR>, name: Name)
    requires Nsec.AllNsec(nsec)
  {
    exists a, b :: a in nsec && b in nsec && Nsec.Covers(zone, a, Canonical(name)) && Nsec.Covers(zone, b, Nsec.WildcardOf(Canonical(name)))
  }

  lemma ListedWithoutIff(nsec: seq<RR>, q: Question)
    requires Nsec.AllNsec(nsec)
    ensures ListedWithout(nsec, q) <==> Nsec.NameSeen(nsec, q.name) && !Nsec.TypeSeen(nsec, q.name, [TYPE_CNAME, q.qtype])
  {
    var types := [TYPE_CNAME, q.qtype];
    assert types[0] in types && types[1] in types;
    if ListedWithout(nsec, q) {
      assert !Nsec.TypeSeen(nsec, q.name, types);
    }
  }

  /** Records that list the name without the type prove no-data; failing that, records that cover both names a name error. */
  lemma NsecDoeIff(o: Oracle, zone: Name, nsec: seq<RR>, nsec3: seq<RR>, q: Question)
    requires Nsec.AllNsec(nsec) && Nsec3.AllNsec3(nsec3)
    ensures var doe := NegativeDoe(o, zone, nsec, nsec3, q);
      && (doe == NsecNoData <==> ListedWithout(nsec, q))
      && (doe == NsecNxDomain <==> !ListedWithout(nsec, q) && BothCovered(zone, nsec, q.name))
  {
    ListedWithoutIff(nsec, q);
  }

  ghost predicate HasRecord(z: Nsec.NsecZone, nsec: seq<RR>, i: nat) {
    |z.owners| == |z.types| && exists r :: r in nsec && z.RecordAt(i, r)
  }

  /** Every record of the chain is there, and no other. */
  ghost predicate WholeChain(z: Nsec.NsecZone, nsec: seq<RR>) {
    ContainsAll(z, nsec) && forall i: nat :: i < |z.owners| ==> HasRecord(z, nsec, i)
  }

  /** A whole chain covers exactly the names below the apex that are no owners. */
  lemma WholeChainCoversIff(z: Nsec.NsecZone, zone: Name, nsec: seq<RR>, n: Name)
    requires z.Readable() && zone == Canonical(z.apex) && WholeChain(z, nsec) && Nsec.AllNsec(nsec)
    requires FaithfulName(n) && OctetOrder(z.apex, n) < 0
    ensures Nsec.Covered(zone, nsec, Canonical(n)) <==> !z.IsOwner(n)
  {
    CanonicalIdempotent(z.apex);
    if !z.IsOwner(n) {
      var i := FindPlace(z, n);
      assert HasRecord(z, nsec, i);
      var r :| r in nsec && z.RecordAt(i, r);
      RecordAtPlaceCovers(z, zone, n, i, r);
      Nsec.CoversIgnoresCase(zone, r, n);
    } else if Nsec.Covered(zone, nsec, Canonical(n)) {
      Nsec.CoveredOwnsNothing(z, zone, nsec, n);
    }
  }

  /** The zone lists the name, without the type and without a CNAME. */
  ghost predicate OwnsWithout(z: Nsec.NsecZone, q: Question) {
    exists i :: 0 <= i < |z.owners| == |z.types| && NamesEqual(z.owners[i], q.name) && q.qtype !in z.types[i] && TYPE_CNAME !in z.types[i]
  }

  lemma ListedIsOwned(z: Nsec.NsecZone, nsec: seq<RR>, q: Question)
    requires ContainsAll(z, nsec) && Nsec.AllNsec(nsec) && Canonical(q.name) == q.name && ListedWithout(nsec, q)
    ensures OwnsWithout(z, q)
  {
    var r :| r in nsec && Canonical(r.owner) == q.name;
    var i: nat :| z.RecordAt(i, r);
    assert NamesEqual(z.owners[i], q.name);
  }

  lemma OwnedIsListed(z: Nsec.NsecZone, nsec: seq<RR>, q: Question)
    requires z.Genuine() && WholeChain(z, nsec) && Nsec.AllNsec(nsec) && Canonical(q.name) == q.name && OwnsWithout(z, q)
    ensures ListedWithout(nsec, q)
  {
    var i :| 0 <= i < |z.owners| && NamesEqual(z.owners[i], q.name) && q.qtype !in z.types[i] && TYPE_CNAME !in z.types[i];
    assert HasRecord(z, nsec, i);
    var r :| r in nsec && z.RecordAt(i, r);
    assert Canonical(r.owner) == q.name;
    forall x | x in nsec && Canonical(x.owner) == q.name
      ensures x.data.nsecTypes == z.types[i]
    {
      assert z.Contains(x);
      var j: nat :| z.RecordAt(j, x);
      SameOwnerSamePlace(z, i, j, q.name);
    }
  }

  lemma SameOwnerSamePlace(z: Nsec.NsecZone, i: nat, j: nat, n: Name)
    requires z.Genuine() && i < |z.owners| && j < |z.owners| && NamesEqual(z.owners[i], n) && NamesEqual(z.owners[j], n)
    ensures i == j
  {
    EqualNamesOnTheWire(z.owners[i], n);
    EqualNamesOnTheWire(z.owners[j], n);
    OctetOrderIsTotalPreorder(n, n, n);
  }

  /**
   With the whole chain at hand the verdict on a question below the apex is exactly what is the
   case: no data if the name is listed without the type, a name error if neither it nor its
   sibling wildcard owns records; and a wildcard answer is accepted if the wildcard does.
   */
  lemma WholeChainDecides(z: Nsec.NsecZone, o: Oracle, zone: Name, nsec: seq<RR>, nsec3: seq<RR>, q: Question)
    requires z.Readable() && zone == Canonical(z.apex) && WholeChain(z, nsec) && Nsec.AllNsec(nsec) && Nsec3.AllNsec3(nsec3)
    requires Canonical(q.name) == q.name && FaithfulName(q.name)
    requires OctetOrder(z.apex, q.name) < 0 && OctetOrder(z.apex, Nsec.WildcardOf(q.name)) < 0
    ensures var doe := NegativeDoe(o, zone, nsec, nsec3, q);
      && (doe == NsecNoData <==> OwnsWithout(z, q))
      && (doe == NsecNxDomain <==> !z.IsOwner(q.name) && !z.IsOwner(Nsec.WildcardOf(q.name)))
    ensures Nsec.ExpandedWildcardProof(zone, nsec, q.name) <==> !z.IsOwner(q.name) && z.IsOwner(Nsec.WildcardOf(q.name))
  {
    NsecDoeIff(o, zone, nsec, nsec3, q);
    if ListedWithout(nsec, q) {
      ListedIsOwned(z, nsec, q);
    }
    if OwnsWithout(z, q) {
      OwnedIsListed(z, nsec, q);
    }
    WholeChainCoversIff(z, zone, nsec, q.name);
    Nsec.CanonicalWildcard(q.name);
    Nsec.FaithfulWildcard(q.name);
    WholeChainCoversIff(z, zone, nsec, Nsec.WildcardOf(q.name));
    if OwnsWithout(z, q) {
      var i :| 0 <= i < |z.owners| && NamesEqual(z.owners[i], q.name);
      EqualNamesOnTheWire(z.owners[i], q.name);
      OctetOrderIsTotalPreorder(q.name, q.name, q.name);
      assert z.IsOwner(q.name);
    }
  }

  // ---------------------------------------------------------------- NSEC3

  /** The records show that the ancestor with `d` labels is the closest encloser (section 8.3 of RFC 5155). */
  ghost predicate Encloses(o: Oracle, zone: Name, nsec3: seq<RR>, n: Name, d: nat)
    requires Nsec3.AllNsec3(nsec3)
  {
    && 0 < d < |n| && IsSubDomain(zone, n[..d])
    && (exists i :: 0 <= i < |nsec3| && o.nsec3Match(nsec3[i], n[..d]) && TYPE_DNAME !in nsec3[i].data.nsec3Types
          && (TYPE_NS in nsec3[i].data.nsec3Types ==> TYPE_SOA in nsec3[i].data.nsec3Types))
    && (exists i :: 0 <= i < |nsec3| && o.nsec3Cover(nsec3[i], n[..d + 1]))
    && (forall i :: 0 <= i < |nsec3| ==> !o.nsec3Match(nsec3[i], n[..d + 1]))
  }

  /** Some record matches the name, and no such record has the type or a CNAME. */
  ghost predicate MatchedWithout(o: Oracle, nsec3: seq<RR>, n: Name, t: TypeCode)
    requires Nsec3.AllNsec3(nsec3)
  {
    && (exists i :: 0 <= i < |nsec3| && o.nsec3Match(nsec3[i], n))
    && forall i :: 0 <= i < |nsec3| && o.nsec3Match(nsec3[i], n) ==> t !in nsec3[i].data.nsec3Types && TYPE_CNAME !in nsec3[i].data.nsec3Types
  }

  /** Some record covers the name and none matches it. */
  ghost predicate ShownAbsent(o: Oracle, nsec3: seq<RR>, n: Name) {
    && (exists i :: 0 <= i < |nsec3| && o.nsec3Cover(nsec3[i], n))
    && forall i :: 0 <= i < |nsec3| ==> !o.nsec3Match(nsec3[i], n)
  }

  /** A record with the opt-out flag covers the name. */
  ghost predicate InOptOutSpan(o: Oracle, nsec3: seq<RR>, n: Name)
    requires Nsec3.AllNsec3(nsec3)
  {
    exists i :: 0 <= i < |nsec3| && o.nsec3Cover(nsec3[i], n) && nsec3[i].data.flags == 1
  }

  lemma MatchedWithoutIff(o: Oracle, nsec3: seq<RR>, n: Name, t: TypeCode)
    requires Nsec3.AllNsec3(nsec3)
    ensures MatchedWithout(o, nsec3, n, t) <==> Nsec3.AnyMatch(o, nsec3, n) && !Nsec3.TypeSeen(o, nsec3, n, [TYPE_CNAME, t])
  {
    var types := [TYPE_CNAME, t];
    assert types[0] == TYPE_CNAME && types[1] == t;
  }

  /** The encloser that the records show is the one the search finds. */
  lemma EncloserIsFound(z: Nsec3.Nsec3Zone, o: Oracle, zone: Name, nsec3: seq<RR>, n: Name, d: nat)
    requires z.Genuine() && z.Supplies(o, nsec3) && NamesEqual(zone, z.apex) && Nsec3.AllNsec3(nsec3)
    requires Encloses(o, zone, nsec3, n, d)
    ensures Nsec3.ClosestEncloserDepth(o, zone, nsec3, n) == d && Canonical(n) !in z.names
  {
    var c := Canonical(n);
    var i :| 0 <= i < |nsec3| && o.nsec3Match(nsec3[i], n[..d]) && Nsec3.Eligible(nsec3[i]);
    assert Nsec3.Vouches(o, zone, nsec3[i], n, d);
    assert Nsec3.Vouched(o, zone, nsec3, n, d);
    CanonicalIdempotent(zone);
    Nsec3.InZoneIsMonotone(zone, n, d, d + 1);
    Nsec3.CoveredOnlyIsAbsent(z, o, nsec3, n[..d + 1]);
    CanonicalTake(n, d + 1);
    forall m | d < m <= |n|
      ensures c[..m] !in z.names && !Nsec3.Vouched(o, zone, nsec3, n, m)
    {
      assert c[..m][..d + 1] == c[..d + 1];
      CanonicalTake(n, m);
      if j :| 0 <= j < |nsec3| && Nsec3.Vouches(o, zone, nsec3[j], n, m) {
        Nsec3.MatchedExists(z, o, nsec3, n[..m], j);
      }
    }
    assert c[..|n|] == c;
  }

  lemma ProofEncloses(z: Nsec3.Nsec3Zone, o: Oracle, zone: Name, nsec3: seq<RR>, n: Name)
    requires z.Genuine() && z.Supplies(o, nsec3) && NamesEqual(zone, z.apex) && Nsec3.AllNsec3(nsec3)
    requires var p := Nsec3.ClosestEncloserProof(o, zone, nsec3, n); p.encloser && p.nextCloser
    ensures Encloses(o, zone, nsec3, n, Nsec3.ClosestEncloserDepth(o, zone, nsec3, n))
  {
    Nsec3.EncloserIsTrueClosest(z, o, zone, nsec3, n);
  }

  /** A closest encloser is shown whose next-closer name lies in an opt-out span. */
  ghost predicate ShownOptOut(o: Oracle, zone: Name, nsec3: seq<RR>, n: Name)
    requires Nsec3.AllNsec3(nsec3)
  {
    exists d: nat :: Encloses(o, zone, nsec3, n, d) && InOptOutSpan(o, nsec3, n[..d + 1])
  }

  /** A closest encloser is shown, and the wildcard there is absent or has neither the type nor a CNAME. */
  ghost predicate ShownNameError(o: Oracle, zone: Name, nsec3: seq<RR>, q: Question)
    requires Nsec3.AllNsec3(nsec3)
  {
    exists d: nat :: Encloses(o, zone, nsec3, q.name, d) &&
      (ShownAbsent(o, nsec3, q.name[..d] + [ASTERISK]) || MatchedWithout(o, nsec3, q.name[..d] + [ASTERISK], q.qtype))
  }

  lemma OptedOutIff(z: Nsec3.Nsec3Zone, o: Oracle, zone: Name, nsec3: seq<RR>, n: Name)
    requires z.Genuine() && z.Supplies(o, nsec3) && NamesEqual(zone, z.apex) && Nsec3.AllNsec3(nsec3)
    ensures Nsec3.ClosestEncloserProof(o, zone, nsec3, n).optedOut <==> ShownOptOut(o, zone, nsec3, n)
  {
    var d := Nsec3.ClosestEncloserDepth(o, zone, nsec3, n);
    if Nsec3.ClosestEncloserProof(o, zone, nsec3, n).optedOut {
      ProofEncloses(z, o, zone, nsec3, n);
    }
    forall e: nat | Encloses(o, zone, nsec3, n, e)
      ensures d == e
    {
      EncloserIsFound(z, o, zone, nsec3, n, e);
    }
  }

  lemma NameErrorIff(z: Nsec3.Nsec3Zone, o: Oracle, zone: Name, nsec3: seq<RR>, q: Question)
    requires z.Genuine() && z.Supplies(o, nsec3) && NamesEqual(zone, z.apex) && Nsec3.AllNsec3(nsec3)
    ensures var p, d := Nsec3.ClosestEncloserProof(o, zone, nsec3, q.name), Nsec3.ClosestEncloserDepth(o, zone, nsec3, q.name);
      (p.encloser && p.nextCloser && (p.wildcard || WildcardNoData(o, nsec3, q.name[..d], [TYPE_CNAME, q.qtype]))) <==> ShownNameError(o, zone, nsec3, q)
  {
    var p, d := Nsec3.ClosestEncloserProof(o, zone, nsec3, q.name), Nsec3.ClosestEncloserDepth(o, zone, nsec3, q.name);
    MatchedWithoutIff(o, nsec3, q.name[..d] + [ASTERISK], q.qtype);
    if p.encloser && p.nextCloser {
      ProofEncloses(z, o, zone, nsec3, q.name);
    }
    forall e: nat | Encloses(o, zone, nsec3, q.name, e)
      ensures d == e
    {
      EncloserIsFound(z, o, zone, nsec3, q.name, e);
    }
  }

  /**
   What NSEC3 records of a genuine chain prove about a question on which NSEC records say nothing:
   no data exactly when the name is matched without the type; for a question for DS records, opt-out
   exactly when the next-closer name is in an opt-out span; and otherwise a name error exactly when
   the encloser is shown and the wildcard denied, opt-out or not.
   */
  lemma Nsec3DoeIff(z: Nsec3.Nsec3Zone, o: Oracle, zone: Name, nsec: seq<RR>, nsec3: seq<RR>, q: Question)
    requires Nsec.AllNsec(nsec) && Nsec3.AllNsec3(nsec3) && !ListedWithout(nsec, q) && !BothCovered(zone, nsec, q.name)
    requires z.Genuine() && z.Supplies(o, nsec3) && NamesEqual(zone, z.apex)
    ensures var doe := NegativeDoe(o, zone, nsec, nsec3, q);
      && (doe == Nsec3NoData <==> MatchedWithout(o, nsec3, q.name, q.qtype))
      && (doe == Nsec3OptOut <==> q.qtype == TYPE_DS && ShownOptOut(o, zone, nsec3, q.name))
      && (doe == Nsec3NxDomain <==> ShownNameError(o, zone, nsec3, q) && !(q.qtype == TYPE_DS && ShownOptOut(o, zone, nsec3, q.name)))
  {
    NsecDoeIff(o, zone, nsec, nsec3, q);
    MatchedWithoutIff(o, nsec3, q.name, q.qtype);
    OptedOutIff(z, o, zone, nsec3, q.name);
    NameErrorIff(z, o, zone, nsec3, q);
    forall d: nat | Encloses(o, zone, nsec3, q.name, d)
      ensures !Nsec3.AnyMatch(o, nsec3, q.name)
    {
      EnclosedIsUnmatched(z, o, zone, nsec3, q.name, d);
    }
  }

  lemma EnclosedIsUnmatched(z: Nsec3.Nsec3Zone, o: Oracle, zone: Name, nsec3: seq<RR>, n: Name, d: nat)
    requires z.Genuine() && z.Supplies(o, nsec3) && NamesEqual(zone, z.apex) && Nsec3.AllNsec3(nsec3)
    requires Encloses(o, zone, nsec3, n, d)
    ensures !Nsec3.AnyMatch(o, nsec3, n)
  {
    EncloserIsFound(z, o, zone, nsec3, n, d);
    if i :| 0 <= i < |nsec3| && o.nsec3Match(nsec3[i], n) {
      Nsec3.MatchedExists(z, o, nsec3, n, i);
    }
  }

  /** A wildcard answer is accepted on NSEC3 records that show the next-closer name absent and say nothing of the wildcard. */
  lemma Nsec3ExpansionIff(o: Oracle, nsec3: seq<RR>, owner: Name, labels: nat)
    ensures Nsec3.ExpandedWildcardProof(o, nsec3, owner, labels) <==>
      && 0 < labels < |owner| && ShownAbsent(o, nsec3, owner[..labels + 1])
      && forall i :: 0 <= i < |nsec3| ==> !o.nsec3Match(nsec3[i], owner[..labels] + [ASTERISK]) && !o.nsec3Cover(nsec3[i], owner[..labels] + [ASTERISK])
  {
  }

  // ---------------------------------------------------------------- delegations

  /** The delegation is listed with NS, and nowhere with DS, SOA or CNAME. */
  ghost predicate ListedUnsigned(nsec: seq<RR>, name: Name)
    requires Nsec.AllNsec(nsec)
  {
    && (exists r :: r in nsec && Canonical(r.owner) == name && TYPE_NS in r.data.nsecTypes)
    && forall r :: r in nsec && Canonical(r.owner) == name ==>
         TYPE_DS !in r.data.nsecTypes && TYPE_SOA !in r.data.nsecTypes && TYPE_CNAME !in r.data.nsecTypes
  }

  ghost predicate MatchedUnsigned(o: Oracle, nsec3: seq<RR>, name: Name)
    requires Nsec3.AllNsec3(nsec3)
  {
    && (exists i :: 0 <= i < |nsec3| && o.nsec3Match(nsec3[i], name) && TYPE_NS in nsec3[i].data.nsec3Types)
    && forall i :: 0 <= i < |nsec3| && o.nsec3Match(nsec3[i], name) ==>
         TYPE_DS !in nsec3[i].data.nsec3Types && TYPE_SOA !in nsec3[i].data.nsec3Types && TYPE_CNAME !in nsec3[i].data.nsec3Types
  }

  lemma ListedUnsignedIff(nsec: seq<RR>, name: Name)
    requires Nsec.AllNsec(nsec)
    ensures NsecShowsNoDS(nsec, name) <==> ListedUnsigned(nsec, name)
  {
    assert ABSENT_AT_DELEGATION[0] in ABSENT_AT_DELEGATION && ABSENT_AT_DELEGATION[1] in ABSENT_AT_DELEGATION && ABSENT_AT_DELEGATION[2] in ABSENT_AT_DELEGATION;
    assert PRESENT_AT_DELEGATION[0] in PRESENT_AT_DELEGATION;
    if ListedUnsigned(nsec, name) {
      var r :| r in nsec && Canonical(r.owner) == name && TYPE_NS in r.data.nsecTypes;
      assert !Nsec.TypeSeen(nsec, name, ABSENT_AT_DELEGATION);
    }
  }

  lemma MatchedUnsignedIff(o: Oracle, nsec3: seq<RR>, name: Name)
    requires Nsec3.AllNsec3(nsec3)
    ensures Nsec3ShowsNoDS(o, nsec3, name) <==> MatchedUnsigned(o, nsec3, name)
  {
    assert ABSENT_AT_DELEGATION[0] == TYPE_CNAME && ABSENT_AT_DELEGATION[1] == TYPE_DS && ABSENT_AT_DELEGATION[2] == TYPE_SOA;
    assert PRESENT_AT_DELEGATION[0] == TYPE_NS;
    if MatchedUnsigned(o, nsec3, name) {
      var i :| 0 <= i < |nsec3| && o.nsec3Match(nsec3[i], name) && TYPE_NS in nsec3[i].data.nsec3Types;
      assert !Nsec3.TypeSeen(o, nsec3, name, ABSENT_AT_DELEGATION);
    }
  }

  /** What the records of a genuine chain prove about a delegation, the first that applies. */
  lemma DelegationDoeIff(z: Nsec3.Nsec3Zone, o: Oracle, zone: Name, nsec: seq<RR>, nsec3: seq<RR>, name: Name)
    requires Nsec.AllNsec(nsec) && Nsec3.AllNsec3(nsec3)
    requires z.Genuine() && z.Supplies(o, nsec3) && NamesEqual(zone, z.apex)
    ensures DelegationDoe(o, zone, nsec, nsec3, name) ==
      if ListedUnsigned(nsec, name) then NsecMissingDS
      else if MatchedUnsigned(o, nsec3, name) then Nsec3MissingDS
      else if ShownOptOut(o, zone, nsec3, name) then Nsec3OptOut
      else NotFound
  {
    ListedUnsignedIff(nsec, name);
    MatchedUnsignedIff(o, nsec3, name);
    OptedOutIff(z, o, zone, nsec3, name);
  }
}
