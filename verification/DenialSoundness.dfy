/**
 What the validator's denial-of-existence verdicts mean for the zone the records came from.
 */
module DenialSoundness {
  import opened Collections
  import opened Names
  import opened Records
  import opened CanonicalOrder
  import opened Verifier
  import Signatures
  import Nsec
  import Nsec3

  /**
   An Nsec3NxDomain verdict over genuine records: the query name is not in the zone, the encloser
   found is its closest encloser (section 3.3.1 of RFC 4592), and the wildcard there is absent or
   has neither the query type nor a CNAME (sections 8.4 and 8.7 of RFC 5155).
   */
  lemma Nsec3NxDomainIsSound(z: Nsec3.Nsec3Zone, o: Oracle, zone: Name, nsec: seq<RR>, nsec3: seq<RR>, q: Question)
    requires Nsec.AllNsec(nsec) && Nsec3.AllNsec3(nsec3)
    requires z.Genuine() && z.Supplies(o, nsec3) && NamesEqual(zone, z.apex)
    requires NegativeDoe(o, zone, nsec, nsec3, q) == Nsec3NxDomain
    ensures Canonical(q.name) !in z.names
    ensures var d := Nsec3.ClosestEncloserDepth(o, zone, nsec3, q.name);
      && 0 < d < |q.name| && Canonical(q.name)[..d] in z.names
      && (forall m :: d < m <= |q.name| ==> Canonical(q.name)[..m] !in z.names)
      && Nsec3.WildcardLacks(z, q.name[..d], [TYPE_CNAME, q.qtype])
  {
    var d := Nsec3.ClosestEncloserDepth(o, zone, nsec3, q.name);
    var types := [TYPE_CNAME, q.qtype];
    Nsec3.EncloserIsTrueClosest(z, o, zone, nsec3, q.name);
    assert Canonical(q.name)[..|q.name|] == Canonical(q.name);
    var w := q.name[..d] + [ASTERISK];
    if Nsec3.CoveredOnly(o, nsec3, w) {
      Nsec3.WildcardCoveredLacks(z, o, nsec3, q.name[..d], types);
    } else {
      Nsec3.NoDataIsSound(z, o, nsec3, w, types);
      Nsec3.CanonicalStar(q.name[..d]);
    }
  }

  /** An Nsec3NoData verdict: the name is in the zone, with neither the query type nor a CNAME. */
  lemma Nsec3NoDataIsSound(z: Nsec3.Nsec3Zone, o: Oracle, zone: Name, nsec: seq<RR>, nsec3: seq<RR>, q: Question)
    requires Nsec.AllNsec(nsec) && Nsec3.AllNsec3(nsec3)
    requires z.Genuine() && z.Supplies(o, nsec3)
    requires NegativeDoe(o, zone, nsec, nsec3, q) == Nsec3NoData
    ensures Canonical(q.name) in z.names
    ensures q.qtype !in z.types[Canonical(q.name)] && TYPE_CNAME !in z.types[Canonical(q.name)]
  {
    Nsec3.NoDataIsSound(z, o, nsec3, q.name, [TYPE_CNAME, q.qtype]);
  }

  /** An NsecNxDomain verdict: neither the query name nor its sibling wildcard owns records. */
  lemma NsecNxDomainIsSound(z: Nsec.NsecZone, o: Oracle, zone: Name, nsec: seq<RR>, nsec3: seq<RR>, q: Question)
    requires Nsec.AllNsec(nsec) && Nsec3.AllNsec3(nsec3)
    requires z.Readable() && NamesEqual(zone, z.apex) && forall r :: r in nsec ==> z.Contains(r)
    requires FaithfulName(q.name) && NegativeDoe(o, zone, nsec, nsec3, q) == NsecNxDomain
    ensures !z.IsOwner(q.name) && !z.IsOwner(Nsec.WildcardOf(q.name))
  {
    Nsec.NameErrorIsSound(z, zone, nsec, q.name);
  }

  /** An NsecNoData verdict: the name owns records, with neither the query type nor a CNAME. */
  lemma NsecNoDataIsSound(z: Nsec.NsecZone, o: Oracle, zone: Name, nsec: seq<RR>, nsec3: seq<RR>, q: Question)
    requires Nsec.AllNsec(nsec) && Nsec3.AllNsec3(nsec3)
    requires z.Genuine() && forall r :: r in nsec ==> z.Contains(r)
    requires NegativeDoe(o, zone, nsec, nsec3, q) == NsecNoData
    ensures exists i :: 0 <= i < |z.owners| && NamesEqual(z.owners[i], q.name)
              && q.qtype !in z.types[i] && TYPE_CNAME !in z.types[i]
  {
    var types := [TYPE_CNAME, q.qtype];
    Nsec.NoDataIsSound(z, nsec, q.name, types);
    var i :| 0 <= i < |z.owners| && NamesEqual(z.owners[i], q.name) && forall t :: t in types ==> t !in z.types[i];
    assert types[0] in types && types[1] in types;
  }

  /** An NsecWildcard verdict: the query name owns no records, so the answer was rightly expanded. */
  lemma NsecWildcardIsSound(z: Nsec.NsecZone, cfg: Config, r: ChainResult, sig: Signatures.Signature)
    requires z.Readable() && NamesEqual(r.zone.name, z.apex) && forall x :: x in NsecsFrom(r.authority) ==> z.Contains(x)
    requires FaithfulName(r.msg.question.name) && WildcardDoe(cfg, r, sig) == NsecWildcard
    ensures !z.IsOwner(r.msg.question.name)
  {
    Nsec.CoveredOwnsNothing(z, r.zone.name, NsecsFrom(r.authority), r.msg.question.name);
  }

  /** An Nsec3Wildcard verdict: no name from the one below the wildcard's parent down to the answer's owner exists. */
  lemma Nsec3WildcardIsSound(z: Nsec3.Nsec3Zone, cfg: Config, r: ChainResult, sig: Signatures.Signature, m: nat)
    requires z.Genuine() && z.Supplies(cfg.oracle, Nsec3sFrom(r.authority))
    requires WildcardDoe(cfg, r, sig) == Nsec3Wildcard
    requires sig.rrsig.data.labels < m <= |sig.name| && |z.apex| <= sig.rrsig.data.labels + 1 && IsSubDomain(z.apex, sig.name)
    ensures Canonical(sig.name)[..m] !in z.names
  {
    var k, c := sig.rrsig.data.labels + 1, Canonical(sig.name);
    CanonicalTake(sig.name, k);
    Nsec3.CoveredOnlyIsAbsent(z, cfg.oracle, Nsec3sFrom(r.authority), sig.name[..k]);
    assert c[..m][..k] == c[..k];
  }

  /** A missing-DS verdict: the zone lists the delegation with NS records and without DS records. */
  lemma MissingDSIsSound(z: Nsec.NsecZone, z3: Nsec3.Nsec3Zone, o: Oracle, zone: Name, nsec: seq<RR>, nsec3: seq<RR>, name: Name)
    requires Nsec.AllNsec(nsec) && Nsec3.AllNsec3(nsec3)
    requires z.Genuine() && forall r :: r in nsec ==> z.Contains(r)
    requires z3.Genuine() && z3.Supplies(o, nsec3)
    ensures DelegationDoe(o, zone, nsec, nsec3, name) == NsecMissingDS ==>
      exists i :: 0 <= i < |z.owners| && NamesEqual(z.owners[i], name) && TYPE_DS !in z.types[i] && TYPE_NS in z.types[i]
    ensures DelegationDoe(o, zone, nsec, nsec3, name) == Nsec3MissingDS ==>
      var n := Canonical(name); n in z3.names && TYPE_DS !in z3.types[n] && TYPE_NS in z3.types[n]
  {
    var doe := DelegationDoe(o, zone, nsec, nsec3, name);
    if doe == NsecMissingDS {
      var r, t :| r in nsec && name == Canonical(r.owner) && t in PRESENT_AT_DELEGATION && t in r.data.nsecTypes;
      var i: nat :| z.RecordAt(i, r);
      CanonicalIdempotent(r.owner);
      assert TYPE_DS in ABSENT_AT_DELEGATION;
      assert TYPE_DS !in z.types[i] && TYPE_NS in z.types[i] && NamesEqual(z.owners[i], name);
    } else if doe == Nsec3MissingDS {
      Nsec3.NoDataIsSound(z3, o, nsec3, name, ABSENT_AT_DELEGATION);
      assert TYPE_DS in ABSENT_AT_DELEGATION;
      var i, k :| 0 <= i < |nsec3| && 0 <= k < |PRESENT_AT_DELEGATION| && o.nsec3Match(nsec3[i], name)
                  && PRESENT_AT_DELEGATION[k] in nsec3[i].data.nsec3Types;
      Nsec3.MatchedExists(z3, o, nsec3, name, i);
    }
  }
}
